/** How a ring of bytes and a merged interval map together stand for a map from index to byte. */
module RingImage {
  import opened Common
  import opened Intervals
  import opened ReassemblerModel

  /** The ring position that lies `offset` places after `front`. */
  ghost function Slot(front: nat, offset: nat, size: nat): (p: nat)
    requires front < size && offset < size
    ensures p < size
  {
    if front + offset < size then front + offset else front + offset - size
  }

  lemma SlotIsModular(front: nat, offset: nat, size: nat)
    requires front < size && offset < size
    ensures (front + offset) % size == Slot(front, offset, size)
  {
    var q := (front + offset) / size;
    Times(q, size);
    assert front + offset == q * size + (front + offset) % size;
  }

  /** The multiples of `m`, as far as they matter here. */
  lemma Times(q: nat, m: nat)
    ensures q == 0 ==> q * m == 0
    ensures q == 1 ==> q * m == m
    ensures q >= 2 ==> q * m >= 2 * m
  {
    if q >= 2 {
      assert q * m == 2 * m + (q - 2) * m;
    }
  }

  /** Moving the front by `n` and the offset back by `n` names the same ring position. */
  lemma SlotShift(front: nat, n: nat, offset: nat, size: nat)
    requires front < size && n <= offset < size
    ensures Slot(Slot(front, n, size), offset - n, size) == Slot(front, offset, size)
  {
  }

  /** `now` is `before` with the first `n` bytes of `data` written from `offset` places after `front`. */
  ghost predicate Stored(before: seq<byte>, now: seq<byte>, front: nat, offset: nat, data: seq<byte>, n: nat) {
    && |now| == |before| && front < |before| && offset + n <= |before| && n <= |data|
    && forall k | 0 <= k < |before| ::
         now[Slot(front, k, |before|)] ==
         if offset <= k < offset + n then data[k - offset] else before[Slot(front, k, |before|)]
  }

  /** Writing the next piece, up to the end of the ring at most. */
  lemma StorePiece(before: seq<byte>, now: seq<byte>, front: nat, offset: nat, data: seq<byte>, n: nat,
                   pos: nat, chunk: nat, next: seq<byte>)
    requires Stored(before, now, front, offset, data, n)
    requires n + chunk <= |data| && offset + n + chunk <= |before| && offset + n < |before|
    requires pos == Slot(front, offset + n, |before|) && pos + chunk <= |before|
    requires next == now[..pos] + data[n..n + chunk] + now[pos + chunk..]
    ensures Stored(before, next, front, offset, data, n + chunk)
  {
    forall k | 0 <= k < |before|
      ensures next[Slot(front, k, |before|)] ==
              if offset <= k < offset + n + chunk then data[k - offset] else before[Slot(front, k, |before|)]
    {
      var p := Slot(front, k, |before|);
      assert now[p] == if offset <= k < offset + n then data[k - offset] else before[p];
      if offset + n <= k < offset + n + chunk {
        assert p == pos + (k - offset - n);
      } else {
        assert p < pos || pos + chunk <= p;
      }
    }
  }

  /** The ring's bytes, with the stream index `base` stored at position `front`. */
  datatype Ring = Ring(bytes: seq<byte>, front: nat, base: nat) {
    ghost predicate Holds(i: nat) {
      front < |bytes| && base <= i < base + |bytes|
    }

    ghost function At(i: nat): byte
      requires Holds(i)
    {
      bytes[Slot(front, i - base, |bytes|)]
    }

    /** The ring after `n` bytes at its front have been used up. */
    ghost function Advance(n: nat): Ring
      requires front < |bytes| && n < |bytes|
    {
      Ring(bytes, Slot(front, n, |bytes|), base + n)
    }

    /** The bytes at the covered indices. */
    ghost function Image(s: seq<Interval>): map<nat, byte>
      requires forall i | i in Covered(s) :: Holds(i)
    {
      map i | i in Covered(s) :: At(i)
    }
  }

  /** The bytes of `data`, placed at consecutive indices. */
  ghost function Placed(first: nat, data: seq<byte>): map<nat, byte> {
    var indices := Span(first, first + |data|);
    map i | i in indices :: data[i - first]
  }

  lemma EmptyImage(r: Ring)
    ensures Covered([]) == {} && r.Image([]) == map[]
  {
  }

  /** Writing `data` at `first` and covering its range adds its bytes to the image, newest winning. */
  lemma ImageAfterStore(r: Ring, r': Ring, s: seq<Interval>, s': seq<Interval>, first: nat, data: seq<byte>)
    requires forall i | i in Covered(s) :: r.Holds(i)
    requires r'.base == r.base <= first && r'.front == r.front
    requires Stored(r.bytes, r'.bytes, r.front, first - r.base, data, |data|)
    requires Covered(s') == Covered(s) + Span(first, first + |data|)
    ensures forall i | i in Covered(s') :: r'.Holds(i)
    ensures r'.Image(s') == r.Image(s) + Placed(first, data)
  {
    forall i | i in Covered(s')
      ensures r'.Holds(i) && r'.At(i) == if first <= i < first + |data| then data[i - first] else r.At(i)
    {
      assert r.Holds(i);
      var k := i - r.base;
      assert r'.bytes[Slot(r.front, k, |r.bytes|)] ==
             if first - r.base <= k < first - r.base + |data| then data[k - (first - r.base)]
             else r.bytes[Slot(r.front, k, |r.bytes|)];
    }
  }

  /** The front entry spans exactly the run that the model writes. */
  lemma FrontRun(r: Ring, s: seq<Interval>, edge: nat, chunk: seq<byte>)
    requires Separated(s) && s != [] && s[0].start == r.base && s[0].end <= edge
    requires forall i | i in Covered(s) :: r.Holds(i)
    requires |chunk| == s[0].end - s[0].start && r.front < |r.bytes|
    requires forall k | 0 <= k < |chunk| :: k < |r.bytes| && chunk[k] == r.bytes[Slot(r.front, k, |r.bytes|)]
    ensures chunk == Run(r.Image(s), r.base, edge)
  {
    hide Run;
    FrontIsApart(s);
    var m := r.Image(s);
    assert s[0].end !in Span(s[0].start, s[0].end) + Covered(s[1..]);
    forall i | r.base <= i < r.base + |chunk|
      ensures i in m && chunk[i - r.base] == m[i]
    {
      assert i in Span(s[0].start, s[0].end) && i in Covered(s);
      assert chunk[i - r.base] == r.bytes[Slot(r.front, i - r.base, |r.bytes|)];
    }
    RunIsUnique(m, r.base, edge, chunk);
  }

  /** Dropping the front entry and advancing the front past it drops exactly its bytes. */
  lemma ImageAfterFlush(r: Ring, s: seq<Interval>)
    requires Separated(s) && s != [] && s[0].start == r.base
    requires r.front < |r.bytes|
    requires forall i | i in Covered(s) :: r.Holds(i)
    requires s[0].end - s[0].start < |r.bytes|
    ensures
      var r' := r.Advance(s[0].end - s[0].start);
      && (forall i | i in Covered(s[1..]) :: r'.Holds(i))
      && r'.Image(s[1..]) == map i | i in r.Image(s) && s[0].end <= i :: r.Image(s)[i]
  {
    FrontIsApart(s);
    var len := s[0].end - s[0].start;
    var r' := r.Advance(len);
    forall i | i in Covered(s[1..])
      ensures r'.Holds(i) && r'.At(i) == r.At(i)
    {
      assert i in Covered(s) && r.Holds(i);
      SlotShift(r.front, len, i - r.base, |r.bytes|);
    }
  }

  /** What is left of the map after its front entry is gone. */
  lemma TailOfMap(s: seq<Interval>, edge: nat)
    requires Separated(s) && s != []
    requires forall i | i in Covered(s) :: i < edge
    ensures Separated(s[1..]) && 0 <= Total(s[1..]) == Total(s) - (s[0].end - s[0].start)
    ensures forall i | i in Covered(s[1..]) :: s[0].end < i < edge
    ensures s[0].end <= edge
  {
    FrontIsApart(s);
    TotalIsCount(s[1..]);
    assert s[0].end - 1 in Span(s[0].start, s[0].end);
    assert Covered(s) == Span(s[0].start, s[0].end) + Covered(s[1..]);
  }

  /** One turn of the flush loop does to the model what `Absorb` does. */
  lemma FlushStep(a: Assembly, r: Ring, s: seq<Interval>, chunk: seq<byte>)
    requires a.InWindow() && Separated(s) && s != [] && s[0].start == r.base == a.Next()
    requires r.front < |r.bytes| == a.out.capacity + 1
    requires forall i | i in Covered(s) :: r.Holds(i) && i < a.Edge()
    requires a.pending == r.Image(s)
    requires |chunk| == s[0].end - s[0].start < |r.bytes|
    requires forall k | 0 <= k < |chunk| :: chunk[k] == r.bytes[Slot(r.front, k, |r.bytes|)]
    ensures forall i | i in Covered(s[1..]) :: r.Advance(|chunk|).Holds(i)
    ensures a.Absorb() == Assembly(a.out.Push(chunk), r.Advance(|chunk|).Image(s[1..]), a.eof)
  {
    hide Run, Covered, Ring.At, Ring.Image, Separated, Slot;
    var edge := a.Edge();
    TailOfMap(s, edge);
    FrontRun(r, s, edge, chunk);
    ImageAfterFlush(r, s);
    assert chunk[..|chunk|] == chunk;
  }

  lemma ClippedPiece(first: nat, data: seq<byte>, from: nat, to: nat)
    requires first <= from <= to <= first + |data|
    ensures
      var piece := data[from - first..to - first];
      var accepted := Span(from, to);
      Placed(from, piece) == map i | i in accepted :: data[i - first]
  {
  }

  /** `Store` adds the bytes of the clipped piece, at their indices. */
  lemma StoreOfPiece(a: Assembly, first: nat, data: seq<byte>, from: nat, to: nat)
    requires a.InWindow() && first + |data| < TWO64
    requires from == Max(first, a.Next()) && to == Min(first + |data|, a.Edge()) && from < to
    ensures
      a.Store(first, data) == a.(pending := a.pending + Placed(from, data[from - first..to - first]))
  {
    ClippedPiece(first, data, from, to);
    hide Span;
  }

  /** What is stored stays in the window. */
  lemma StoreStaysInWindow(a: Assembly, r: Ring, s: seq<Interval>, s': seq<Interval>, from: nat, to: nat)
    requires a.InWindow() && a.Next() <= from && to <= a.Edge()
    requires forall i | i in Covered(s) :: r.Holds(i)
    requires a.pending == r.Image(s) && Covered(s') == Covered(s) + Span(from, to)
    ensures forall i | i in Covered(s') :: a.Next() <= i < a.Edge()
  {
    assert a.pending.Keys == Covered(s);
  }

  /** The image of the ring after copying is what `Store` makes of the pending bytes. */
  lemma StoreImage(a: Assembly, first: nat, data: seq<byte>, r: Ring, r': Ring, s: seq<Interval>, s': seq<Interval>,
                   from: nat, to: nat)
    requires a.InWindow() && first + |data| < TWO64
    requires from == Max(first, a.Next()) && to == Min(first + |data|, a.Edge()) && from < to
    requires forall i | i in Covered(s) :: r.Holds(i)
    requires a.pending == r.Image(s) && r.base == a.Next()
    requires r'.base == r.base && r'.front == r.front
    requires Stored(r.bytes, r'.bytes, r.front, from - r.base, data[from - first..to - first], to - from)
    requires Covered(s') == Covered(s) + Span(from, to)
    ensures forall i | i in Covered(s') :: r'.Holds(i)
    ensures a.Store(first, data) == a.(pending := r'.Image(s'))
  {
    hide Stored, Covered, Assembly.Store, Assembly.InWindow, Ring.Holds, Ring.Image, Placed, Span;
    ImageAfterStore(r, r', s, s', from, data[from - first..to - first]);
    StoreOfPiece(a, first, data, from, to);
  }

  /** Copying the clipped piece and recording its range does to the model what `Store` does. */
  lemma StoreStep(a: Assembly, first: nat, data: seq<byte>, r: Ring, r': Ring, s: seq<Interval>, s': seq<Interval>,
                  from: nat, to: nat)
    requires a.InWindow() && first + |data| < TWO64
    requires from == Max(first, a.Next()) && to == Min(first + |data|, a.Edge()) && from < to
    requires forall i | i in Covered(s) :: r.Holds(i)
    requires a.pending == r.Image(s) && r.base == a.Next()
    requires r'.base == r.base && r'.front == r.front
    requires Stored(r.bytes, r'.bytes, r.front, from - r.base, data[from - first..to - first], to - from)
    requires Covered(s') == Covered(s) + Span(from, to)
    ensures forall i | i in Covered(s') :: r'.Holds(i) && a.Next() <= i < a.Edge()
    ensures a.Store(first, data) == a.(pending := r'.Image(s'))
  {
    hide Stored, Covered, Assembly.Store, Assembly.InWindow, Ring.Holds, Ring.Image, Span;
    StoreStaysInWindow(a, r, s, s', from, to);
    StoreImage(a, first, data, r, r', s, s', from, to);
  }
}
