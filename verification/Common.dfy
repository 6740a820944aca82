/** Machine-level vocabulary shared by every component: bytes, the unsigned integer widths that
    the program stores, the constants of `TCPConfig`, and an optional value. */
module Common {

  newtype byte = x: int | 0 <= x < 256

  const TWO16: nat := 0x1_0000
  const TWO31: nat := 0x8000_0000
  const TWO32: nat := 0x1_0000_0000
  const TWO64: nat := 0x1_0000_0000_0000_0000

  type u8 = x: nat | x < 256
  type u16 = x: nat | x < 0x1_0000
  type u32 = x: nat | x < 0x1_0000_0000

  /** The largest window a 16-bit field can carry. */
  const MAX_WINDOW: nat := 65535
  const DEFAULT_CAPACITY: nat := 64000
  const MAX_PAYLOAD_SIZE: nat := 1000
  const MAX_RETX_ATTEMPTS: nat := 8

  /** The parts of an IPv4 datagram that forwarding and resolution look at, and its payload. */
  datatype Datagram = Datagram(ttl: u8, dst: u32, payload: seq<byte>)

  datatype Option<+T> = None | Some(value: T)

  function Min(a: nat, b: nat): nat {
    if a <= b then a else b
  }

  function Max(a: nat, b: nat): nat {
    if a <= b then b else a
  }

  function Pow2(n: nat): nat {
    if n == 0 then 1 else 2 * Pow2(n - 1)
  }

  predicate AtLeast(i: nat, lo: nat) {
    lo <= i
  }

  /** The indices lo, lo + 1, ..., hi - 1. */
  function Span(lo: nat, hi: nat): set<nat> {
    set i: nat | i < hi && AtLeast(i, lo)
  }

  lemma {:induction false} SpanSize(lo: nat, hi: nat)
    requires lo <= hi
    ensures |Span(lo, hi)| == hi - lo
    decreases hi - lo
  {
    if lo < hi {
      SpanSize(lo + 1, hi);
      assert Span(lo, hi) == {lo} + Span(lo + 1, hi);
    } else {
      assert Span(lo, hi) == {};
    }
  }

  /** The elements of all chunks, one after the other. */
  function Flatten<T>(chunks: seq<seq<T>>): seq<T> {
    if chunks == [] then [] else chunks[0] + Flatten(chunks[1..])
  }

  lemma {:induction false} FlattenConcat<T>(a: seq<seq<T>>, b: seq<seq<T>>)
    ensures Flatten(a + b) == Flatten(a) + Flatten(b)
  {
    var both := a + b;
    if a == [] {
      assert both == b;
    } else {
      FlattenConcat(a[1..], b);
      var rest := a[1..] + b;
      assert both[0] == a[0] && both[1..] == rest;
      Associative(a[0], Flatten(a[1..]), Flatten(b));
    }
  }

  lemma Associative<T>(x: seq<T>, y: seq<T>, z: seq<T>)
    ensures x + (y + z) == (x + y) + z
  {
  }
}
