/** Substrings of one text, inserted in any order, overlapping and repeated, while the output is read:
    exactly what fell into the window is kept, and when it arrived does not matter. */
module Arrivals {
  import opened Common
  import opened ByteStreams
  import opened ReassemblerModel
  import opened ReceiverModel
  import opened Following

  datatype Piece = Piece(first: nat, bytes: seq<byte>, last: bool) {
    function Indices(): set<nat> {
      Span(first, first + |bytes|)
    }
  }

  /** The piece is a true quotation from `text`. */
  ghost predicate Quotation(p: Piece, text: seq<byte>) {
    && p.first + |p.bytes| <= |text| && p.bytes == text[p.first..p.first + |p.bytes|]
    && (p.last ==> p.first + |p.bytes| == |text|)
  }

  ghost predicate Quotations(pieces: seq<Piece>, text: seq<byte>) {
    forall k | 0 <= k < |pieces| :: Quotation(pieces[k], text)
  }

  /** The indices that some piece covers. */
  ghost function Arrived(pieces: seq<Piece>): set<nat> {
    if pieces == [] then {} else Arrived(pieces[..|pieces| - 1]) + pieces[|pieces| - 1].Indices()
  }

  ghost predicate EndArrived(pieces: seq<Piece>) {
    pieces != [] && (EndArrived(pieces[..|pieces| - 1]) || pieces[|pieces| - 1].last)
  }

  /** A piece arrives, or the reader takes bytes out and so moves the window. */
  datatype Event = Arrives(p: Piece) | Reads(n: nat)

  function Happen(a: Assembly, e: Event): (r: Assembly)
    requires a.Valid()
    ensures r.Valid()
  {
    match e
    case Arrives(p) => a.Insert(p.first, p.bytes, p.last)
    case Reads(n) => a.Pop(Min(n, a.out.Buffered()))
  }

  /** The state after a run; the last event comes last. */
  function RunAll(a: Assembly, events: seq<Event>): (r: Assembly)
    requires a.Valid()
    ensures r.Valid()
  {
    if events == [] then a else Happen(RunAll(a, events[..|events| - 1]), events[|events| - 1])
  }

  ghost predicate Quoting(events: seq<Event>, text: seq<byte>) {
    forall k | 0 <= k < |events| && events[k].Arrives? :: Quotation(events[k].p, text)
  }

  /** The indices of a piece that lie before the window's edge. */
  function Visible(a: Assembly, p: Piece): set<nat> {
    set i | i in p.Indices() && i < a.Edge()
  }

  /** The indices that some piece covered and that lay before the window's edge when it arrived. */
  ghost function Kept(a: Assembly, events: seq<Event>): set<nat>
    requires a.Valid()
  {
    if events == [] then {}
    else
      var rest, e := events[..|events| - 1], events[|events| - 1];
      Kept(a, rest) + if e.Arrives? then Visible(RunAll(a, rest), e.p) else {}
  }

  ghost predicate EndSeen(events: seq<Event>) {
    && events != []
    && var e := events[|events| - 1];
    EndSeen(events[..|events| - 1]) || (e.Arrives? && e.p.last)
  }

  /** Arrivals only, and nothing is read. */
  function Deliveries(pieces: seq<Piece>): (events: seq<Event>)
    ensures |events| == |pieces| && forall k | 0 <= k < |events| :: events[k] == Arrives(pieces[k])
  {
    seq(|pieces|, k requires 0 <= k < |pieces| => Arrives(pieces[k]))
  }

  function InsertAll(a: Assembly, pieces: seq<Piece>): (r: Assembly)
    requires a.Valid()
    ensures r.Valid()
  {
    RunAll(a, Deliveries(pieces))
  }

  /** The indices known to the assembly, written or pending. */
  ghost function Known(a: Assembly): set<nat> {
    Span(0, a.Next()) + a.pending.Keys
  }

  ghost predicate TruePending(a: Assembly, text: seq<byte>) {
    forall i | i in a.pending :: i < |text| && a.pending[i] == text[i]
  }

  /** The assembly holds the indices `arrived` of `text` and nothing else: in its output the longest
      prefix without a gap (`Valid` says that the next index is unknown), the rest pending. */
  ghost predicate Holds(a: Assembly, arrived: set<nat>, end: bool, text: seq<byte>) {
    && a.Valid() && a.Next() <= |text| && a.out.data == text[..a.Next()]
    && Known(a) == arrived && TruePending(a, text)
    && a.eof == (if end then Some(|text|) else None)
    && (a.out.closed <==> end && a.Next() == |text|)
  }

  /** Over every run of arrivals and reads, whatever the capacity and the length of the text: what is
      known is exactly what fell before the window's edge when it arrived; bytes beyond are discarded,
      and nothing else is. The output is the longest prefix of it without a gap, and is closed exactly
      when it is the whole text and its end has been seen. */
  lemma {:induction false} KeptIsKnown(capacity: nat, events: seq<Event>, text: seq<byte>)
    requires |text| < TWO64 && Quoting(events, text)
    ensures
      var a := EmptyAssembly(capacity);
      Holds(RunAll(a, events), Kept(a, events), EndSeen(events), text)
  {
    var start := EmptyAssembly(capacity);
    if events == [] {
      assert text[..0] == [] && Span(0, 0) == {};
    } else {
      var rest, e := events[..|events| - 1], events[|events| - 1];
      KeptIsKnown(capacity, rest, text);
      var a := RunAll(start, rest);
      match e
      case Arrives(p) =>
        assert Quotation(p, text);
        InsertHolds(a, Kept(start, rest), EndSeen(rest), p, text);
        hide Holds, Assembly.Insert, Visible, Quotation;
      case Reads(n) =>
        PopHolds(a, Kept(start, rest), EndSeen(rest), Min(n, a.out.Buffered()), text);
        assert Kept(start, rest) + {} == Kept(start, rest);
        hide Holds, Assembly.Pop;
    }
  }

  lemma PopHolds(a: Assembly, arrived: set<nat>, end: bool, n: nat, text: seq<byte>)
    requires Holds(a, arrived, end, text) && n <= a.out.Buffered()
    ensures Holds(a.Pop(n), arrived, end, text)
  {
  }

  /** If the whole text fits into the window, nothing that arrived is lost, whatever the order. */
  lemma NothingArrivedIsLost(capacity: nat, pieces: seq<Piece>, text: seq<byte>)
    requires |text| <= capacity && |text| < TWO64 && Quotations(pieces, text)
    ensures
      var r := InsertAll(EmptyAssembly(capacity), pieces);
      && Holds(r, Arrived(pieces), EndArrived(pieces), text)
      && r.out == Stream(capacity, r.out.data, 0, r.out.closed, false)
  {
    hide Holds, Kept, RunAll, EndSeen, Arrived, EndArrived;
    KeptIsKnown(capacity, Deliveries(pieces), text);
    AllAreKept(capacity, pieces, text);
  }

  lemma {:induction false} AllAreKept(capacity: nat, pieces: seq<Piece>, text: seq<byte>)
    requires |text| <= capacity && Quotations(pieces, text)
    ensures
      var a, events := EmptyAssembly(capacity), Deliveries(pieces);
      var r := RunAll(a, events);
      && r.out == Stream(capacity, r.out.data, 0, r.out.closed, false)
      && Kept(a, events) == Arrived(pieces) && EndSeen(events) == EndArrived(pieces)
  {
    if pieces != [] {
      var rest, p := pieces[..|pieces| - 1], pieces[|pieces| - 1];
      var start := EmptyAssembly(capacity);
      var a := RunAll(start, Deliveries(rest));
      AllAreKept(capacity, rest, text);
      assert Deliveries(pieces)[..|pieces| - 1] == Deliveries(rest);
      InsertOnlyAppends(a, p.first, p.bytes, p.last);
      AllVisible(a, p, text);
      hide Assembly.Insert, Visible, Quotation, Piece.Indices;
    }
  }

  lemma AllVisible(a: Assembly, p: Piece, text: seq<byte>)
    requires Quotation(p, text) && |text| <= a.Edge()
    ensures Visible(a, p) == p.Indices()
  {
  }

  lemma InsertHolds(a: Assembly, arrived: set<nat>, end: bool, p: Piece, text: seq<byte>)
    requires Holds(a, arrived, end, text) && Quotation(p, text) && |text| < TWO64
    ensures Holds(a.Insert(p.first, p.bytes, p.last), arrived + Visible(a, p), end || p.last, text)
  {
    var marked := if p.last then a.(eof := Some(|text|)) else a;
    var stored := marked.Store(p.first, p.bytes);
    InsertUnfolds(a, p, text);
    KnownLikewise(a, marked);
    StoreHolds(marked, p, text);
    AbsorbHolds(stored, text);
    assert Visible(marked, p) == Visible(a, p);
    hide Assembly.Insert, Assembly.Store, Assembly.Absorb, Assembly.CloseAtEnd;
    hide Quotation, Piece.Indices, Known, TruePending, Visible;
    CloseHolds(stored.Absorb(), arrived + Visible(a, p), end || p.last, text);
  }

  lemma InsertUnfolds(a: Assembly, p: Piece, text: seq<byte>)
    requires a.Valid() && Quotation(p, text) && |text| < TWO64
    ensures
      var marked := if p.last then a.(eof := Some(|text|)) else a;
      a.Insert(p.first, p.bytes, p.last) == marked.Store(p.first, p.bytes).Absorb().CloseAtEnd()
  {
    hide Assembly.Store, Assembly.Absorb, Assembly.CloseAtEnd, Assembly.InWindow;
    FitsIn64Bits(p.first + |p.bytes|);
  }

  lemma CloseHolds(a: Assembly, arrived: set<nat>, end: bool, text: seq<byte>)
    requires a.Valid() && a.Next() <= |text| && a.out.data == text[..a.Next()]
    requires Known(a) == arrived && TruePending(a, text) && a.eof == if end then Some(|text|) else None
    requires a.out.closed ==> end && a.Next() == |text|
    ensures Holds(a.CloseAtEnd(), arrived, end, text)
  {
  }

  lemma KnownLikewise(a: Assembly, b: Assembly)
    requires a.out == b.out && a.pending == b.pending
    ensures Known(a) == Known(b) && forall text :: TruePending(a, text) <==> TruePending(b, text)
  {
  }

  lemma StoreHolds(a: Assembly, p: Piece, text: seq<byte>)
    requires a.Valid() && Quotation(p, text) && |text| < TWO64 && TruePending(a, text)
    ensures
      var b := a.Store(p.first, p.bytes);
      b == a.(pending := b.pending) && Known(b) == Known(a) + Visible(a, p) && TruePending(b, text)
  {
    assert forall k | 0 <= k < |p.bytes| :: p.bytes[k] == text[p.first + k];
  }

  lemma AbsorbHolds(a: Assembly, text: seq<byte>)
    requires a.InWindow() && a.Next() <= |text| && a.out.data == text[..a.Next()] && TruePending(a, text)
    ensures
      var b := a.Absorb();
      && a.Next() <= b.Next() <= |text| && b.out.data == text[..b.Next()]
      && b.out == a.out.(data := b.out.data) && b.eof == a.eof
      && Known(b) == Known(a) && TruePending(b, text)
  {
    AbsorbQuotes(a, text, |text|);
    var run := Run(a.pending, a.Next(), a.Edge());
    hide Run;
    assert forall i | a.Next() <= i < a.Next() + |run| :: i in a.pending;
  }

  /** Two runs in which the same pieces arrive end in the same state. */
  lemma OrderIsIrrelevant(capacity: nat, pieces: seq<Piece>, others: seq<Piece>, text: seq<byte>)
    requires |text| <= capacity && |text| < TWO64 && Quotations(pieces, text)
    requires forall p :: p in pieces <==> p in others
    ensures InsertAll(EmptyAssembly(capacity), pieces) == InsertAll(EmptyAssembly(capacity), others)
  {
    hide InsertAll, Arrived, EndArrived, Quotations, EmptyAssembly, Holds;
    QuotationsLikewise(pieces, others, text);
    NothingArrivedIsLost(capacity, pieces, text);
    NothingArrivedIsLost(capacity, others, text);
    ArrivedSubset(pieces, others);
    ArrivedSubset(others, pieces);
    assert Arrived(pieces) == Arrived(others) && EndArrived(pieces) == EndArrived(others);
    var a, b := InsertAll(EmptyAssembly(capacity), pieces), InsertAll(EmptyAssembly(capacity), others);
    SameState(a, b, Arrived(pieces), EndArrived(pieces), text);
  }

  /** What has arrived determines the whole state. */
  lemma SameState(a: Assembly, b: Assembly, arrived: set<nat>, end: bool, text: seq<byte>)
    requires Holds(a, arrived, end, text) && Holds(b, arrived, end, text)
    requires a.out == b.out.(data := a.out.data, closed := a.out.closed)
    ensures a == b
  {
    SamePrefix(a, b, arrived, end, text);
    SamePrefix(b, a, arrived, end, text);
    SamePending(a, b, arrived, end, text);
    hide Known, TruePending;
  }

  lemma QuotationsLikewise(pieces: seq<Piece>, others: seq<Piece>, text: seq<byte>)
    requires Quotations(pieces, text) && forall p :: p in others ==> p in pieces
    ensures Quotations(others, text)
  {
    forall k | 0 <= k < |others|
      ensures Quotation(others[k], text)
    {
      assert others[k] in pieces;
    }
  }

  lemma {:induction false} ArrivedSubset(pieces: seq<Piece>, others: seq<Piece>)
    requires forall p :: p in pieces ==> p in others
    ensures Arrived(pieces) <= Arrived(others)
    ensures EndArrived(pieces) ==> EndArrived(others)
  {
    if pieces != [] {
      ArrivedSubset(pieces[..|pieces| - 1], others);
      assert pieces[|pieces| - 1] in pieces;
      PieceArrived(pieces[|pieces| - 1], others);
    }
  }

  lemma {:induction false} PieceArrived(p: Piece, pieces: seq<Piece>)
    requires p in pieces
    ensures p.Indices() <= Arrived(pieces) && (p.last ==> EndArrived(pieces))
  {
    if p != pieces[|pieces| - 1] {
      PieceArrived(p, pieces[..|pieces| - 1]);
    }
  }

  lemma SamePrefix(a: Assembly, b: Assembly, arrived: set<nat>, end: bool, text: seq<byte>)
    requires Holds(a, arrived, end, text) && Holds(b, arrived, end, text)
    ensures a.Next() <= b.Next()
  {
    assert b.Next() !in Known(b);
    assert b.Next() < a.Next() ==> b.Next() in Known(a);
  }

  lemma SamePending(a: Assembly, b: Assembly, arrived: set<nat>, end: bool, text: seq<byte>)
    requires Holds(a, arrived, end, text) && Holds(b, arrived, end, text) && a.Next() == b.Next()
    ensures a.pending == b.pending
  {
    assert a.pending.Keys == arrived - Span(0, a.Next()) == b.pending.Keys;
    forall i | i in a.pending.Keys
      ensures i in b.pending && a.pending[i] == b.pending[i]
    {
    }
  }
}
