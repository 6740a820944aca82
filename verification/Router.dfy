/** The router as built: a binary trie grown in place, and queues drained through it. */
module Routers {
  import opened Common
  import opened RouterModel
  import opened Forwarding

  class TrieNode {
    var children: seq<TrieNode?>
    var routeEntry: Option<RouteEntry>

    /** The bits that lead from the root to this node. */
    ghost const path: Bits

    constructor (ghost path: Bits)
      ensures children == [null, null] && routeEntry == None && this.path == path
    {
      children, routeEntry := [null, null], None;
      this.path := path;
    }
  }

  /** The link for bit `b` of the node at `p` leads to the node at `Down(p, b)`, if there is one. */
  ghost predicate LinkOk(child: TrieNode?, nodes: map<Bits, TrieNode>, p: Bits, b: nat) {
    if child == null then Down(p, b) !in nodes
    else Down(p, b) in nodes && child == nodes[Down(p, b)]
  }

  ghost predicate LinksOk(children: seq<TrieNode?>, nodes: map<Bits, TrieNode>, p: Bits) {
    |children| == 2 && LinkOk(children[0], nodes, p, 0) && LinkOk(children[1], nodes, p, 1)
  }

  /** A new node at `Down(path, bit)` leaves the links of all other nodes right, but its parent's. */
  lemma OtherLinks(children: seq<TrieNode?>, nodes: map<Bits, TrieNode>, p: Bits,
                   path: Bits, bit: nat, node: TrieNode)
    requires LinksOk(children, nodes, p) && Down(path, bit) !in nodes && bit < 2
    ensures p != path ==> LinksOk(children, nodes[Down(path, bit) := node], p)
    ensures p == path ==> LinksOk(children[bit := node], nodes[Down(path, bit) := node], p)
  {
  }

  class Router {
    const root: TrieNode

    /** The datagrams received by each interface, in order. */
    var received: seq<seq<Datagram>>

    /** Every node under the bits that lead to it, and every route ever added. */
    ghost var nodes: map<Bits, TrieNode>
    ghost var table: seq<RouteEntry>
    ghost var repr: set<TrieNode>

    ghost predicate Linked()
      reads this`nodes, this`repr, repr
    {
      && Root in nodes && nodes[Root] == root
      && (forall p | p in nodes :: nodes[p] in repr && nodes[p].path == p)
      && (forall p, b: nat :: Down(p, b) in nodes ==> p in nodes)
      && (forall p {:trigger LinksOk(nodes[p].children, nodes, p)} | p in nodes :: LinksOk(nodes[p].children, nodes, p))
    }

    /** The trie holds, at the bits of each prefix, the last route added for that prefix. */
    ghost predicate Valid()
      reads this`nodes, this`table, this`repr, repr
    {
      && Linked() && Sound(table)
      && (forall p | p in nodes :: nodes[p].routeEntry == StoredAt(table, p))
      && (forall r | r in table :: Path(r.prefix, r.length) in nodes)
    }

    constructor ()
      ensures Valid() && table == [] && received == [] && fresh(repr)
    {
      root := new TrieNode(Root);
      received := [];
      new;
      nodes, table, repr := map[Root := root], [], {root};
    }

    method AddInterface() returns (index: nat)
      requires Valid()
      modifies this`received
      ensures Valid() && received == old(received) + [[]] && index == |old(received)|
    {
      received := received + [[]];
      index := |received| - 1;
    }

    /** One step down, along bit `bit`, growing the trie where it ends. */
    method Descend(current: TrieNode, ghost path: Bits, bit: nat) returns (child: TrieNode)
      requires Valid() && path in nodes && current == nodes[path] && bit < 2
      modifies this`nodes, this`repr, repr
      ensures Valid() && Down(path, bit) in nodes && child == nodes[Down(path, bit)]
      ensures nodes.Keys == old(nodes.Keys) + {Down(path, bit)}
      ensures fresh(repr - old(repr))
    {
      assert LinksOk(nodes[path].children, nodes, path);
      if current.children[bit] == null {
        Grow(current, path, bit);
      }
      child := current.children[bit];
    }

    method Grow(current: TrieNode, ghost path: Bits, bit: nat)
      requires Valid() && path in nodes && current == nodes[path]
      requires bit < |current.children| == 2 && current.children[bit] == null
      modifies this`nodes, this`repr, current`children
      ensures Valid() && Down(path, bit) in nodes
      ensures |current.children| == 2 && current.children[bit] == nodes[Down(path, bit)]
      ensures nodes.Keys == old(nodes.Keys) + {Down(path, bit)}
      ensures fresh(repr - old(repr))
    {
      var node := new TrieNode(Down(path, bit));
      Attach(current, path, bit, node);
    }

    /** Link a new leaf below `path`. */
    method Attach(current: TrieNode, ghost path: Bits, bit: nat, node: TrieNode)
      requires Valid() && path in nodes && current == nodes[path]
      requires bit < |current.children| == 2 && current.children[bit] == null
      requires node.path == Down(path, bit) && node.children == [null, null] && node.routeEntry == None
      requires node !in repr
      modifies this`nodes, this`repr, current`children
      ensures Valid() && nodes == old(nodes)[Down(path, bit) := node] && repr == old(repr) + {node}
      ensures current.children == old(current.children)[bit := node]
    {
      ghost var before, was := nodes, current.children;
      LeafIsNew(current, path, bit);
      hide StoredAt, Path, LinksOk;
      nodes, repr := nodes[Down(path, bit) := node], repr + {node};
      current.children := current.children[bit := node];
      assert Linked() by {
        assert forall p | p in before && p != path ::
            nodes[p] == before[p] && before[p].children == old(before[p].children);
        StaysLinked(before, was, path, bit, node);
      }
      assert forall p | p in nodes :: nodes[p].routeEntry == StoredAt(table, p);
      hide Router.Linked;
    }

    /** Where a link is missing there is no node, and no route was ever added for the bits below. */
    lemma LeafIsNew(current: TrieNode, path: Bits, bit: nat)
      requires Valid() && path in nodes && current == nodes[path]
      requires bit < |current.children| == 2 && current.children[bit] == null
      ensures Down(path, bit) !in nodes && StoredAt(table, Down(path, bit)) == None
      ensures LinksOk(current.children, nodes, path)
      ensures forall p | p in nodes && p != path :: nodes[p] != current && LinksOk(nodes[p].children, nodes, p)
    {
      assert LinksOk(current.children, nodes, path);
      StoredRoute(table, Down(path, bit));
      assert StoredAt(table, Down(path, bit)) == None;
      hide StoredAt, Path, LinkOk;
    }

    /** Growing one leaf keeps the trie linked. */
    lemma StaysLinked(before: map<Bits, TrieNode>, was: seq<TrieNode?>, path: Bits, bit: nat, node: TrieNode)
      requires Root in before && before[Root] == root
      requires forall p, b: nat :: Down(p, b) in before ==> p in before
      requires path in before && bit < 2 && Down(path, bit) !in before && nodes == before[Down(path, bit) := node]
      requires forall p | p in nodes :: nodes[p] in repr && nodes[p].path == p
      requires LinksOk(was, before, path) && nodes[path].children == was[bit := node] && node.children == [null, null]
      requires forall p | p in before && p != path :: LinksOk(nodes[p].children, before, p)
      ensures Linked()
    {
      forall p | p in nodes
        ensures LinksOk(nodes[p].children, nodes, p)
      {
        if p == path {
          OtherLinks(was, before, p, path, bit, node);
        } else if p in before {
          OtherLinks(nodes[p].children, before, p, path, bit, node);
        }
      }
    }

    /** Store a route at the node of its prefix, growing the trie on the way there; an earlier route
        for the same prefix is replaced. */
    method AddRoute(prefix: u32, length: nat, nextHop: Option<u32>, interfaceNum: nat)
      requires Valid() && length <= 32
      modifies this`nodes, this`table, this`repr, repr
      ensures Valid() && table == old(table) + [RouteEntry(prefix, length, nextHop, interfaceNum)]
      ensures fresh(repr - old(repr))
    {
      var current := WalkDown(prefix, length);
      hide Router.Valid, Path;
      StoreRoute(current, RouteEntry(prefix, length, nextHop, interfaceNum));
    }

    /** Walk down the bits of a prefix, growing the trie where it ends. */
    method WalkDown(prefix: u32, length: nat) returns (current: TrieNode)
      requires Valid() && length <= 32
      modifies this`nodes, this`repr, repr
      ensures Valid() && Path(prefix, length) in nodes && current == nodes[Path(prefix, length)]
      ensures fresh(repr - old(repr))
    {
      current := root;
      var i := 0;
      assert Root in nodes && nodes[Root] == root;
      hide Router.Valid, Bit;
      while i < length
        invariant i <= length && Valid()
        invariant Path(prefix, i) in nodes && current == nodes[Path(prefix, i)]
        invariant fresh(repr - old(repr))
      {
        current := Descend(current, Path(prefix, i), Bit(prefix, i));
        i := i + 1;
      }
    }

    /** Store a route at its node. */
    method StoreRoute(current: TrieNode, route: RouteEntry)
      requires Valid() && route.length <= 32
      requires Path(route.prefix, route.length) in nodes && current == nodes[Path(route.prefix, route.length)]
      modifies this`table, current`routeEntry
      ensures Valid() && table == old(table) + [route]
    {
      hide StoredAt, Path;
      current.routeEntry := Some(route);
      table := table + [route];
      forall p | p in nodes
        ensures nodes[p].routeEntry == StoredAt(table, p)
      {
        StoredStep(old(table), route, p);
        assert old(nodes[p].routeEntry) == StoredAt(old(table), p);
        assert nodes[p] == current ==> nodes[p].path == Path(route.prefix, route.length);
      }
      assert Linked() by {
        forall p | p in nodes
          ensures LinksOk(nodes[p].children, nodes, p)
        {
          assert old(LinksOk(nodes[p].children, nodes, p));
        }
      }
    }

    /** Walk down the bits of `dst`, remembering the last route passed: the longest prefix match. */
    method Lookup(dst: u32) returns (best: Option<RouteEntry>)
      requires Valid()
      ensures best == Scan(table, dst)
    {
      var current := root;
      best := current.routeEntry;
      var i := 0;
      while i < 32
        invariant i <= 32 && best == Deepest(table, dst, i)
        invariant Path(dst, i) in nodes && current == nodes[Path(dst, i)]
      {
        var bit := Bit(dst, i);
        assert LinksOk(nodes[Path(dst, i)].children, nodes, Path(dst, i));
        if current.children[bit] == null {
          NothingDeeper(dst, i, 32);
          break;
        }
        current := current.children[bit];
        i := i + 1;
        if current.routeEntry.Some? {
          best := current.routeEntry;
        }
      }
      DeepestIsScan(table, dst);
    }

    /** Where the trie ends, no longer prefix of `dst` has a route. */
    lemma {:induction false} NothingDeeper(dst: u32, i: nat, n: nat)
      requires Valid() && i < n <= 32 && Down(Path(dst, i), Bit(dst, i)) !in nodes
      ensures Path(dst, n) !in nodes && Deepest(table, dst, n) == Deepest(table, dst, i)
      decreases n
    {
      if i + 1 < n {
        NothingDeeper(dst, i, n - 1);
      }
      StoredRoute(table, Path(dst, n));
    }

    /** `now` is what remains to be done towards `goal` when `sent` has been sent. */
    static ghost predicate Resumes<T>(goal: (seq<Forwarded>, T, bool), sent: seq<Forwarded>,
                                      now: (seq<Forwarded>, T, bool))
    {
      goal.0 == sent + now.0 && goal.1 == now.1 && goal.2 == now.2
    }

    /** One turn of the draining loop. */
    lemma DrainOne(queue: seq<Datagram>, goal: (seq<Forwarded>, seq<Datagram>, bool), sent: seq<Forwarded>)
      requires Sound(table) && queue != [] && Resumes(goal, sent, Drain(table, queue, |received|))
      ensures
        var f := Forward(table, queue[0]);
        if f.Some? && f.value.interfaceNum >= |received| then
          goal == (sent, queue[1..], false)
        else
          Resumes(goal, sent + (if f.Some? then [f.value] else []), Drain(table, queue[1..], |received|))
    {
      var f := Forward(table, queue[0]);
      if !(f.Some? && f.value.interfaceNum >= |received|) {
        var rest := Drain(table, queue[1..], |received|).0;
        var head := if f.Some? then [f.value] else [];
        assert sent + (head + rest) == (sent + head) + rest;
      } else {
        assert sent + [] == sent;
      }
    }

    /** What becomes of one datagram; `known` says whether its route names an existing interface. */
    method Dispatch(d: Datagram) returns (out: seq<Forwarded>, known: bool)
      requires Valid()
      ensures
        var f := Forward(table, d);
        && known == !(f.Some? && f.value.interfaceNum >= |received|)
        && (known ==> out == if f.Some? then [f.value] else [])
    {
      hide Router.Linked;
      out, known := [], true;
      if d.ttl <= 1 {
        return;
      }
      var best := Lookup(d.dst);
      if best.Some? {
        if best.value.interfaceNum >= |received| {
          known := false;
          return;
        }
        var hop := if best.value.nextHop.Some? then best.value.nextHop.value else d.dst;
        out := [Forwarded(best.value.interfaceNum, d.(ttl := d.ttl - 1), hop)];
      }
    }

    lemma DrainStarts(queue: seq<Datagram>)
      requires Sound(table)
      ensures var goal := Drain(table, queue, |received|); Resumes(goal, [], goal)
    {
      hide Drain;
      var goal := Drain(table, queue, |received|);
      assert [] + goal.0 == goal.0;
    }

    lemma DrainEnds(goal: (seq<Forwarded>, seq<Datagram>, bool), sent: seq<Forwarded>)
      requires Sound(table) && Resumes(goal, sent, Drain(table, [], |received|))
      ensures goal == (sent, [], true)
    {
      assert sent + [] == sent;
    }

    /** Route everything that interface `i` has received. */
    method DrainQueue(i: nat) returns (sent: seq<Forwarded>, ok: bool)
      requires Valid() && i < |received|
      modifies this`received
      ensures Valid() && |received| == |old(received)|
      ensures received == old(received)[i := received[i]]
      ensures (sent, received[i], ok) == Drain(table, old(received[i]), |received|)
    {
      hide Drain, Forward, Router.Resumes, Router.Linked;
      ghost var goal := Drain(table, received[i], |received|);
      DrainStarts(received[i]);
      sent, ok := [], true;
      while received[i] != []
        invariant Valid() && |received| == |old(received)|
        invariant received == old(received)[i := received[i]]
        invariant Resumes(goal, sent, Drain(table, received[i], |received|))
        decreases |received[i]|
      {
        var d := received[i][0];
        DrainOne(received[i], goal, sent);
        received := received[i := received[i][1..]];
        var out, known := Dispatch(d);
        if !known {
          ok := false;
          return;
        }
        sent := sent + out;
      }
      DrainEnds(goal, sent);
    }

    /** The loop over the interfaces has reached `i`: the queues before are `now`, the others as
        they were, and draining them is what remains to be done towards `goal`. */
    ghost predicate Routing(goal: (seq<Forwarded>, seq<seq<Datagram>>, bool), queues: seq<seq<Datagram>>,
                            now: seq<seq<Datagram>>, i: nat, sent: seq<Forwarded>)
      requires Sound(table)
      reads this`table
    {
      && |now| == |queues| && i <= |now| && now[i..] == queues[i..]
      && var rest := DrainAll(table, queues[i..], |queues|);
      goal.0 == sent + rest.0 && goal.1 == now[..i] + rest.1 && goal.2 == rest.2
    }

    lemma RoutingStarts(queues: seq<seq<Datagram>>)
      requires Sound(table)
      ensures Routing(DrainAll(table, queues, |queues|), queues, queues, 0, [])
    {
      assert queues[0..] == queues;
      var goal := DrainAll(table, queues, |queues|);
      assert [] + goal.0 == goal.0 && queues[..0] + goal.1 == goal.1;
    }

    lemma RoutingEnds(goal: (seq<Forwarded>, seq<seq<Datagram>>, bool), queues: seq<seq<Datagram>>,
                      now: seq<seq<Datagram>>, sent: seq<Forwarded>)
      requires Sound(table) && Routing(goal, queues, now, |queues|, sent)
      ensures goal == (sent, now, true)
    {
      assert now[..|now|] + [] == now && sent + [] == sent;
    }

    /** One turn of that loop. */
    lemma RoutingTurns(goal: (seq<Forwarded>, seq<seq<Datagram>>, bool), queues: seq<seq<Datagram>>,
                       now: seq<seq<Datagram>>, i: nat, sent: seq<Forwarded>)
      requires Sound(table) && i < |queues| && Routing(goal, queues, now, i, sent)
      ensures now[i] == queues[i]
      ensures
        var (more, left, ok) := Drain(table, now[i], |queues|);
        if ok then Routing(goal, queues, now[i := left], i + 1, sent + more)
        else goal == (sent + more, now[i := left], false)
    {
      hide Drain;
      var rest := queues[i..];
      assert rest[0] == now[i..][0] == now[i] && rest[1..] == queues[i + 1..] == now[i + 1..];
      var (more, left, ok) := Drain(table, now[i], |queues|);
      var now' := now[i := left];
      if ok {
        var later := DrainAll(table, rest[1..], |queues|);
        assert sent + (more + later.0) == (sent + more) + later.0;
        assert now[..i] + ([left] + later.1) == now'[..i + 1] + later.1;
      } else {
        assert now[..i] + ([left] + rest[1..]) == now';
      }
    }

    /** Route everything that has been received, interface by interface. */
    method Route() returns (sent: seq<Forwarded>, ok: bool)
      requires Valid()
      modifies this`received
      ensures Valid() && (sent, received, ok) == DrainAll(table, old(received), |old(received)|)
      ensures Routed(table, old(received), |old(received)|, sent, received, ok)
    {
      hide DrainAll, Drain, Router.Routing, Routed;
      ghost var queues := received;
      ghost var goal := DrainAll(table, queues, |queues|);
      EveryFateIsSettled(table, queues, |queues|);
      RoutingStarts(queues);
      sent, ok := [], true;
      for i := 0 to |received|
        invariant Valid() && |received| == |queues| && ok
        invariant Routing(goal, queues, received, i, sent)
      {
        RoutingTurns(goal, queues, received, i, sent);
        var more, fine := DrainQueue(i);
        sent, ok := sent + more, fine;
        if !ok {
          return;
        }
      }
      RoutingEnds(goal, queues, received, sent);
    }
  }
}
