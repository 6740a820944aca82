/** What the Reassembler means: a map from stream index to byte, limited to the current window. */
module ReassemblerModel {
  import opened Common
  import opened ByteStreams

  /** `pending` holds the bytes that arrived ahead of a gap, `eof` the index where the stream ends. */
  datatype Assembly = Assembly(out: Stream, pending: map<nat, byte>, eof: Option<nat>) {

    /** The next index the output needs. */
    function Next(): nat {
      |out.data|
    }

    /** The first index beyond the window. */
    function Edge(): nat {
      out.popped + out.capacity
    }

    /** Pending bytes lie in the window; bytes at `Next()` may still be waiting to be flushed. */
    ghost predicate InWindow() {
      out.Valid() && forall i | i in pending :: Next() <= i < Edge()
    }

    /** As `InWindow`, and nothing that could be written is held back. */
    ghost predicate Valid() {
      InWindow() && Next() !in pending
    }

    /** Remember those bytes that fall into the window. The end index is a 64-bit sum; when it
        overflows, the substring counts as lying before the window and nothing is stored. */
    function Store(first: nat, bytes: seq<byte>): (r: Assembly)
      requires InWindow()
      ensures r.InWindow()
    {
      if first + |bytes| >= TWO64 then
        this
      else
        var accepted := Span(Max(first, Next()), Min(first + |bytes|, Edge()));
        this.(pending := pending + map i | i in accepted :: bytes[i - first])
    }

    /** Write the longest contiguous run at the front. */
    function Absorb(): (r: Assembly)
      requires InWindow()
      ensures r.Valid() && out.data <= r.out.data
    {
      var run := Run(pending, Next(), Edge());
      this.(out := out.(data := out.data + run),
            pending := map i | i in pending && Next() + |run| <= i :: pending[i])
    }

    /** Close the stream once its last byte has been written. */
    function CloseAtEnd(): Assembly {
      if eof == Some(Next()) then this.(out := out.(closed := true)) else this
    }

    function Insert(first: nat, bytes: seq<byte>, last: bool): (r: Assembly)
      requires Valid()
      ensures r.Valid()
    {
      var marked := if last then this.(eof := Some((first + |bytes|) % TWO64)) else this;
      marked.Store(first, bytes).Absorb().CloseAtEnd()
    }

    /** Taking bytes out of the output moves the window, and nothing else. */
    function Pop(n: nat): (r: Assembly)
      requires Valid() && n <= out.Buffered()
      ensures r.Valid()
    {
      this.(out := out.Pop(n))
    }
  }

  function EmptyAssembly(capacity: nat): (a: Assembly)
    ensures a.Valid()
  {
    Assembly(EmptyStream(capacity), map[], None)
  }

  /** The longest run of consecutive known bytes that starts at `from` and stays below `edge`. */
  function Run(m: map<nat, byte>, from: nat, edge: nat): (run: seq<byte>)
    ensures forall i | from <= i < from + |run| :: i in m && run[i - from] == m[i]
    ensures from + |run| <= Max(from, edge)
    ensures from + |run| >= edge || from + |run| !in m
    decreases edge - from
  {
    if from < edge && from in m then [m[from]] + Run(m, from + 1, edge) else []
  }

  /** The two clauses above determine the run. */
  lemma RunIsUnique(m: map<nat, byte>, from: nat, edge: nat, run: seq<byte>)
    requires forall i | from <= i < from + |run| :: i in m && run[i - from] == m[i]
    requires from + |run| <= Max(from, edge)
    requires from + |run| >= edge || from + |run| !in m
    ensures run == Run(m, from, edge)
  {
    var r := Run(m, from, edge);
    if |run| < |r| {
      assert false;
    } else if |r| < |run| {
      assert false;
    } else {
      forall k | 0 <= k < |r|
        ensures r[k] == run[k]
      {
        assert from + k in m && r[from + k - from] == m[from + k] == run[from + k - from];
      }
    }
  }

  lemma NothingToFlush(a: Assembly)
    requires a.Valid()
    ensures a.Absorb() == a
  {
    assert a.Absorb().pending == a.pending;
    assert a.out.data + [] == a.out.data;
  }

  /** A substring that misses the window, or whose end overflows, leaves nothing behind. */
  lemma NothingToStore(a: Assembly, first: nat, bytes: seq<byte>)
    requires a.InWindow()
    requires
      || first + |bytes| >= TWO64
      || first + |bytes| <= a.Next() || |bytes| == 0
      || a.Edge() <= first || a.Edge() <= a.Next()
    ensures a.Store(first, bytes) == a
  {
    assert a.Store(first, bytes).pending == a.pending;
  }

  /** The byte known at index `i`, written or pending. */
  function ByteAt(a: Assembly, i: nat): Option<byte> {
    if i < |a.out.data| then Some(a.out.data[i]) else if i in a.pending then Some(a.pending[i]) else None
  }

  /** Whatever substring is inserted, even one that contradicts what is known: afterwards its bytes are
      known where it meets the window, the newest wins, and nothing else has changed. What is written
      has no gap and ends where the next byte is unknown (`Valid`). */
  lemma NewestByteWins(a: Assembly, first: nat, bytes: seq<byte>, last: bool, i: nat)
    requires a.Valid()
    ensures
      var b := a.Insert(first, bytes, last);
      && (ByteAt(b, i) ==
          if first + |bytes| < TWO64 && first <= i < first + |bytes| && a.Next() <= i < a.Edge()
          then Some(bytes[i - first])
          else ByteAt(a, i))
      && b.Edge() == a.Edge() && b.Next() !in b.pending
  {
    var marked := if last then a.(eof := Some((first + |bytes|) % TWO64)) else a;
    StoreKnows(marked, first, bytes, i);
    AbsorbMoves(marked.Store(first, bytes), i);
    hide Assembly.Absorb, Assembly.Store;
  }

  lemma StoreKnows(a: Assembly, first: nat, bytes: seq<byte>, i: nat)
    requires a.InWindow()
    ensures
      var b := a.Store(first, bytes);
      && (ByteAt(b, i) ==
          if first + |bytes| < TWO64 && first <= i < first + |bytes| && a.Next() <= i < a.Edge()
          then Some(bytes[i - first])
          else ByteAt(a, i))
      && b.Edge() == a.Edge()
  {
  }

  /** Writing a run moves bytes from pending to written, and neither changes nor loses one. */
  lemma AbsorbMoves(a: Assembly, i: nat)
    requires a.InWindow()
    ensures ByteAt(a.Absorb(), i) == ByteAt(a, i) && a.Absorb().Edge() == a.Edge()
  {
    var from, run := a.Next(), Run(a.pending, a.Next(), a.Edge());
    if from <= i < from + |run| {
      assert i in a.pending && run[i - from] == a.pending[i];
    }
    hide Run;
  }
}
