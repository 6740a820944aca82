/** What routing means: longest prefix match by scanning the table of routes. */
module RouterModel {
  import opened Common

  /** A forwarding rule. Without a next hop, the destination itself is the next hop. */
  datatype RouteEntry = RouteEntry(prefix: u32, length: nat, nextHop: Option<u32>, interfaceNum: nat)

  /** The operator `>>` on unsigned numbers. */
  function ShiftRight(x: nat, n: nat): nat {
    if n == 0 then x else ShiftRight(x, n - 1) / 2
  }

  /** The `n` most significant of the 32 bits of an address, as a number. */
  function High(x: u32, n: nat): nat
    requires n <= 32
  {
    ShiftRight(x, 32 - n)
  }

  /** Bit `i`, counted from the most significant one. */
  function Bit(x: u32, i: nat): (b: nat)
    requires i < 32
    ensures b < 2
  {
    ShiftRight(x, 31 - i) % 2
  }

  /** A string of bits, most significant first, named by the walk that reads it. */
  datatype Bits = Root | Down(parent: Bits, bit: nat) {
    function Depth(): nat {
      if Root? then 0 else parent.Depth() + 1
    }
  }

  /** The first `n` bits of an address. */
  function Path(x: u32, n: nat): (p: Bits)
    requires n <= 32
    ensures p.Depth() == n
  {
    if n == 0 then Root else Down(Path(x, n - 1), Bit(x, n - 1))
  }

  /** The route applies to `dst`: the first `length` bits agree. */
  predicate Matches(r: RouteEntry, dst: u32)
    requires r.length <= 32
  {
    High(r.prefix, r.length) == High(dst, r.length)
  }

  predicate Sound(table: seq<RouteEntry>) {
    forall r | r in table :: r.length <= 32
  }

  /** The linear scan: of the routes that apply, one of greatest length, and of those the last. */
  function Scan(table: seq<RouteEntry>, dst: u32): Option<RouteEntry>
    requires Sound(table)
  {
    if table == [] then None
    else
      var r := table[|table| - 1];
      var best := Scan(table[..|table| - 1], dst);
      if Matches(r, dst) && (best.None? || best.value.length <= r.length) then Some(r) else best
  }

  /** Route `k` applies to `dst`, no route that applies is longer, and none as long comes later. */
  ghost predicate IsBest(table: seq<RouteEntry>, k: nat, dst: u32)
    requires Sound(table)
  {
    && k < |table| && Matches(table[k], dst)
    && forall j | 0 <= j < |table| && Matches(table[j], dst) ::
         table[j].length <= table[k].length && (j > k ==> table[j].length < table[k].length)
  }

  /** Section 5.2.4.3 of RFC 1812: what the scan finds is the most recent route among those of
      greatest prefix length that apply, and it finds none exactly when no route applies. */
  lemma {:induction false} ScanIsLongestMatch(table: seq<RouteEntry>, dst: u32) returns (k: nat)
    requires Sound(table)
    ensures Scan(table, dst).None? <==> forall r | r in table :: !Matches(r, dst)
    ensures Scan(table, dst).Some? ==> IsBest(table, k, dst) && table[k] == Scan(table, dst).value
  {
    k := 0;
    if table != [] {
      var rest, r := table[..|table| - 1], table[|table| - 1];
      k := ScanIsLongestMatch(rest, dst);
      assert table == rest + [r];
      var best := Scan(rest, dst);
      hide Matches;
      if Matches(r, dst) && (best.None? || best.value.length <= r.length) {
        k := |rest|;
        assert forall j | 0 <= j < |rest| :: table[j] == rest[j] && (Matches(rest[j], dst) ==> rest[j] in rest);
      }
    }
  }

  lemma {:induction false} ShiftOut(x: nat, n: nat, k: nat)
    requires x < Pow2(n + k)
    ensures ShiftRight(x, n) < Pow2(k)
  {
    if n > 0 {
      ShiftOut(x, n - 1, k + 1);
    }
  }

  /** Comparing the first `n` bits one by one is comparing the shifted addresses. */
  lemma {:induction false} PathsAgree(x: u32, y: u32, n: nat)
    requires n <= 32
    ensures Path(x, n) == Path(y, n) <==> High(x, n) == High(y, n)
  {
    if n == 0 {
      assert Pow2(8) == 0x100 && Pow2(16) == 0x1_0000;
      assert Pow2(24) == 0x100_0000 && Pow2(32) == 0x1_0000_0000;
      ShiftOut(x, 32, 0);
      ShiftOut(y, 32, 0);
    } else {
      PathsAgree(x, y, n - 1);
      assert High(x, n) == 2 * High(x, n - 1) + Bit(x, n - 1);
      assert High(y, n) == 2 * High(y, n - 1) + Bit(y, n - 1);
    }
  }

  /** The last route stored for exactly the bits `path`. */
  function StoredAt(table: seq<RouteEntry>, path: Bits): Option<RouteEntry>
    requires Sound(table)
  {
    if table == [] then None
    else
      var r := table[|table| - 1];
      if Path(r.prefix, r.length) == path then Some(r) else StoredAt(table[..|table| - 1], path)
  }

  lemma StoredStep(table: seq<RouteEntry>, r: RouteEntry, path: Bits)
    requires Sound(table) && r.length <= 32
    ensures StoredAt(table + [r], path) == if Path(r.prefix, r.length) == path then Some(r) else StoredAt(table, path)
  {
    assert (table + [r])[..|table|] == table;
  }

  /** The route stored for the longest prefix of `dst` of at most `n` bits. */
  function Deepest(table: seq<RouteEntry>, dst: u32, n: nat): Option<RouteEntry>
    requires Sound(table) && n <= 32
  {
    var here := StoredAt(table, Path(dst, n));
    if here.Some? || n == 0 then here else Deepest(table, dst, n - 1)
  }

  /** A stored route was added for these very bits. */
  lemma {:induction false} StoredRoute(table: seq<RouteEntry>, path: Bits)
    requires Sound(table)
    ensures
      var o := StoredAt(table, path);
      o.Some? ==> o.value in table && Path(o.value.prefix, o.value.length) == path && o.value.length == path.Depth()
  {
    if table != [] {
      StoredRoute(table[..|table| - 1], path);
    }
  }

  /** Walking down the bits of `dst` and scanning the table find the same route. */
  lemma {:induction false} DeepestIsScan(table: seq<RouteEntry>, dst: u32)
    requires Sound(table)
    ensures Deepest(table, dst, 32) == Scan(table, dst)
  {
    if table == [] {
      DeepestOfNothing(dst, 32);
    } else {
      var rest, r := table[..|table| - 1], table[|table| - 1];
      DeepestIsScan(rest, dst);
      DeepestStep(rest, r, dst, 32);
      assert table == rest + [r];
    }
  }

  lemma {:induction false} DeepestOfNothing(dst: u32, n: nat)
    requires n <= 32
    ensures Deepest([], dst, n) == None
  {
    if n > 0 {
      DeepestOfNothing(dst, n - 1);
    }
  }

  lemma {:induction false} DeepestBound(table: seq<RouteEntry>, dst: u32, n: nat)
    requires Sound(table) && n <= 32
    ensures Deepest(table, dst, n).Some? ==> Deepest(table, dst, n).value.length <= n
  {
    StoredRoute(table, Path(dst, n));
    if n > 0 {
      DeepestBound(table, dst, n - 1);
    }
  }

  /** Adding a route changes the walk exactly as it changes the scan. */
  lemma {:induction false} DeepestStep(table: seq<RouteEntry>, r: RouteEntry, dst: u32, n: nat)
    requires Sound(table) && r.length <= 32 && n <= 32
    ensures
      var best := Deepest(table, dst, n);
      Deepest(table + [r], dst, n) ==
        if r.length <= n && Matches(r, dst) && (best.None? || best.value.length <= r.length) then Some(r) else best
  {
    StoredStep(table, r, Path(dst, n));
    PathsAgree(r.prefix, dst, r.length);
    DeepestBound(table, dst, n);
    StoredRoute(table, Path(dst, n));
    hide StoredAt, Path, High;
    if n > 0 {
      DeepestStep(table, r, dst, n - 1);
      DeepestBound(table, dst, n - 1);
    }
  }
}
