/** One direction of a connection: a receiver that hears only what one sender said. */
module Following {
  import opened Common
  import opened WrappingIntegers
  import opened ReassemblerModel
  import opened ReceiverModel
  import opened SenderModel
  import opened SenderProofs

  /** All that the assembly holds is part of `text`, of which the first `sent` bytes were sent. */
  ghost predicate Quotes(a: Assembly, text: seq<byte>, sent: nat) {
    && a.Valid() && sent <= |text|
    && a.out.data <= text && |a.out.data| <= sent
    && (forall i | i in a.pending :: i < sent && a.pending[i] == text[i])
    && (a.eof.Some? ==> a.eof.value == |text|)
    && (a.out.closed ==> a.eof == Some(|a.out.data|))
  }

  /** The receiver knows nothing about the sender's stream that is not so. */
  ghost predicate Follows(r: Receiver, s: Sender) {
    && Quotes(r.asm, s.input.data, s.input.popped)
    && (r.syn ==> s.synSent && r.isn == s.isn)
    && (!r.syn ==> r.asm.out.data == [] && r.asm.pending == map[] && r.asm.eof == None && !r.asm.out.closed)
    && (r.asm.eof.Some? ==> s.finSent)
    && (r.rst ==> r.asm.out.error)
  }

  /** Inserting a true quotation keeps the assembly quoting, whatever its window cuts off. */
  lemma InsertQuotes(a: Assembly, text: seq<byte>, sent: nat, first: nat, bytes: seq<byte>, last: bool)
    requires Quotes(a, text, sent)
    requires first + |bytes| < TWO64
    requires bytes != [] ==> first + |bytes| <= sent && bytes == text[first..first + |bytes|]
    requires last ==> first + |bytes| == |text|
    ensures Quotes(a.Insert(first, bytes, last), text, sent)
    ensures a.out.data <= a.Insert(first, bytes, last).out.data
  {
    hide Assembly.Store, Assembly.Absorb, Run;
    var marked := if last then a.(eof := Some(first + |bytes|)) else a;
    assert marked == if last then a.(eof := Some((first + |bytes|) % TWO64)) else a;
    StoreQuotes(marked, text, sent, first, bytes);
    AbsorbQuotes(marked.Store(first, bytes), text, sent);
  }

  lemma StoreQuotes(a: Assembly, text: seq<byte>, sent: nat, first: nat, bytes: seq<byte>)
    requires a.InWindow() && sent <= |text|
    requires forall i | i in a.pending :: i < sent && a.pending[i] == text[i]
    requires bytes != [] ==> first + |bytes| <= sent && bytes == text[first..first + |bytes|]
    ensures
      var stored := a.Store(first, bytes);
      && stored == a.(pending := stored.pending)
      && forall i | i in stored.pending :: i < sent && stored.pending[i] == text[i]
  {
    if bytes != [] {
      assert forall k | 0 <= k < |bytes| :: bytes[k] == text[first + k];
    }
  }

  lemma AbsorbQuotes(a: Assembly, text: seq<byte>, sent: nat)
    requires a.InWindow() && a.out.data <= text && |a.out.data| <= sent <= |text|
    requires forall i | i in a.pending :: i < sent && a.pending[i] == text[i]
    ensures a.Absorb().out.data <= text && |a.Absorb().out.data| <= sent
    ensures a.out.data <= a.Absorb().out.data
    ensures forall i | i in a.Absorb().pending :: i in a.pending && a.Absorb().pending[i] == a.pending[i]
    ensures a.Absorb().out == a.out.(data := a.Absorb().out.data) && a.Absorb().eof == a.eof
  {
    var run := Run(a.pending, a.Next(), a.Edge());
    RunQuotes(a.pending, a.Next(), a.Edge(), text, sent);
    hide Run;
    Continues(a.out.data, run, text);
  }

  /** A run of true bytes is true. */
  lemma RunQuotes(m: map<nat, byte>, from: nat, edge: nat, text: seq<byte>, sent: nat)
    requires from <= sent <= |text| && forall i | i in m :: i < sent && m[i] == text[i]
    ensures from + |Run(m, from, edge)| <= sent
    ensures forall k | 0 <= k < |Run(m, from, edge)| :: Run(m, from, edge)[k] == text[from + k]
  {
    var run := Run(m, from, edge);
    hide Run;
    if run != [] {
      assert from + (|run| - 1) in m;
    }
    forall k | 0 <= k < |run|
      ensures run[k] == text[from + k]
    {
      assert from + k in m && run[from + k - from] == m[from + k];
    }
  }

  lemma Continues(data: seq<byte>, run: seq<byte>, text: seq<byte>)
    requires data <= text && |data| + |run| <= |text|
    requires forall k | 0 <= k < |run| :: run[k] == text[|data| + k]
    ensures data + run <= text
  {
  }

  /** A receiver goes on following as its sender moves on. */
  lemma FollowsForever(r: Receiver, s: Sender, s': Sender)
    requires Follows(r, s) && Extends(s, s') && s.Numbered()
    ensures Follows(r, s')
  {
  }

  /** Ack soundness: the receiver never acknowledges what was not sent, and acknowledges everything
      exactly when it holds the whole stream and has closed it. */
  lemma AckWithinSent(r: Receiver, s: Sender)
    requires Follows(r, s) && s.Numbered()
    ensures r.AckNumber() <= s.next
    ensures r.asm.out.closed ==> s.finSent && r.AckNumber() == s.next && r.asm.out.data == s.input.data
    ensures s.finSent && r.AckNumber() == s.next ==> r.asm.out.closed
  {
  }

  /** The segment starts less than 2^31 numbers behind what its receiver expects. */
  predicate NearSegment(r: Receiver, g: Segment) {
    |r.asm.out.data| + 1 < CHECKPOINT_LIMIT && |r.asm.out.data| + 1 < g.start + TWO31
  }

  /** Unwrapping finds the stream index that the sender meant. */
  lemma IndexIsMeant(r: Receiver, s: Sender, g: Segment)
    requires Follows(r, s) && s.Valid() && s.Carries(g) && s.ackno <= r.AckNumber()
    requires r.syn && NearSegment(r, g)
    ensures r.FirstIndex(g.Wire(s.isn)) == Sender.Index(g)
    ensures Sender.Index(g) + |g.payload| < TWO64
  {
    var checkpoint := |r.asm.out.data| + 1;
    FitsIn64Bits(checkpoint);
    assert g.start <= s.next <= s.ackno + MAX_WINDOW <= checkpoint + 1 + MAX_WINDOW by {
      if s.outstanding != [] { OldestSegment(s); }
    }
    hide Wrap, Unwrap, Follows, Sender.Valid, Tiles;
    UnwrapOfWrap(g.start, s.isn, checkpoint);
    if !g.syn {
      FitsIn64Bits(g.start - 1);
    }
  }

  lemma FitsIn64Bits(x: nat)
    requires x < TWO64
    ensures x % TWO64 == x
  {
  }

  /** Prefix safety, one segment at a time: whatever was lost, repeated or reordered before, a
      truthful segment leaves the receiver following the sender's stream. */
  lemma ReceiveFollows(r: Receiver, s: Sender, g: Segment)
    requires Follows(r, s) && s.Valid() && s.Carries(g) && s.ackno <= r.AckNumber() && NearSegment(r, g)
    ensures
      var r' := r.Receive(g.Wire(s.isn));
      && Follows(r', s)
      && r.AckNumber() <= r'.AckNumber()
      && (r.syn ==> r'.syn) && (r.asm.out.closed ==> r'.asm.out.closed)
      && (r'.asm.eof.Some? ==> r.asm.eof.Some? || g.fin)
      && r'.asm.out.error == (r.asm.out.error || g.rst)
      && r'.asm.out.popped == r.asm.out.popped && r'.asm.out.capacity == r.asm.out.capacity
  {
    hide Wrap, Unwrap, Assembly.Insert;
    var m := g.Wire(s.isn);
    var r1 := r.NoteSyn(m);
    if g.syn {
      assert Wrap(0, s.isn) == s.isn by { WrapZero(s.isn); }
    }
    assert Follows(r1, s);
    if !g.rst && r1.syn {
      IndexIsMeant(r1, s, g);
      InsertQuotes(r1.asm, s.input.data, s.input.popped, Sender.Index(g), g.payload, g.fin);
      InsertOnlyAppends(r1.asm, Sender.Index(g), g.payload, g.fin);
    }
  }

  /** A substring that holds the next byte is written at once, if the window has room for a byte. */
  lemma InsertWrites(a: Assembly, first: nat, bytes: seq<byte>, last: bool)
    requires a.Valid() && first + |bytes| < TWO64
    requires first <= a.Next() < first + |bytes| && a.Next() < a.Edge()
    ensures |a.Insert(first, bytes, last).out.data| > |a.out.data|
  {
    var marked := if last then a.(eof := Some((first + |bytes|) % TWO64)) else a;
    var stored := marked.Store(first, bytes);
    assert stored.Next() in stored.pending;
    hide Assembly.Store;
    assert Run(stored.pending, stored.Next(), stored.Edge()) != [];
  }

  /** The last substring closes the stream if all its bytes have been written before. */
  lemma InsertCloses(a: Assembly, first: nat, bytes: seq<byte>)
    requires a.Valid() && first + |bytes| < TWO64
    requires first + |bytes| == a.Next()
    ensures a.Insert(first, bytes, true).out.closed
    ensures a.Insert(first, bytes, true).out.data == a.out.data
  {
    var marked := a.(eof := Some((first + |bytes|) % TWO64));
    NothingToStore(marked, first, bytes);
    NothingToFlush(marked);
  }

  /** Progress, one segment at a time: the segment that holds the next expected number raises it,
      as soon as the receiver's window has room for a single byte. */
  lemma ReceiveAdvances(r: Receiver, s: Sender, g: Segment)
    requires Follows(r, s) && s.Valid() && s.Carries(g) && s.ackno <= r.AckNumber() && NearSegment(r, g)
    requires !g.rst && g.start <= r.AckNumber() < g.End() && r.asm.out.Available() > 0
    ensures r.AckNumber() < r.Receive(g.Wire(s.isn)).AckNumber()
  {
    ReceiveFollows(r, s, g);
    if r.syn {
      AckWithinSent(r, s);
      IndexIsMeant(r, s, g);
      var i := Sender.Index(g);
      hide Wrap, Unwrap, Assembly.Insert;
      InsertOnlyAppends(r.asm, i, g.payload, g.fin);
      if r.asm.Next() < i + |g.payload| {
        InsertWrites(r.asm, i, g.payload, g.fin);
      } else {
        InsertCloses(r.asm, i, g.payload);
      }
    }
  }
}
