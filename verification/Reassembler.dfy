/** The Reassembler as built: a ring buffer for the bytes and a merged interval map for the
    indices, proved to be a faster form of the map from index to byte in `ReassemblerModel`. */
module Reassemblers {
  import opened Common
  import opened ByteStreams
  import opened Intervals
  import opened ReassemblerModel
  import opened RingImage

  class Reassembler {
    const output: ByteStream

    var firstUnpopped: nat
    var firstUnassembled: nat
    var firstUnacceptable: nat
    var eofIndex: nat
    var eofReceived: bool

    var ringInitialized: bool
    var totalCapacity: nat
    var ringSize: nat
    var frontPos: nat
    var ring: array<byte>

    var filled: seq<Interval>
    var pendingBytes: nat

    /** The ring is laid out for the output's capacity, and starts at the next index to write. */
    ghost predicate RingReady()
      reads this, output, ring
    {
      && ringInitialized
      && totalCapacity == output.capacity
      && ring.Length == ringSize == totalCapacity + 1
      && frontPos < ringSize
      && firstUnassembled == output.totalPushed
    }

    /** Ring, map and counters agree; bytes at the front may still wait to be flushed. */
    ghost predicate Consistent()
      reads this, output, ring
    {
      && output.Valid()
      && Separated(filled)
      && pendingBytes == Total(filled)
      && (if ringInitialized then RingReady() else filled == [])
      && forall i | i in Covered(filled) :: output.totalPushed <= i < output.totalPopped + output.capacity
    }

    /** Between calls, nothing that could be written is held back. */
    ghost predicate Valid()
      reads this, output, ring
    {
      Consistent() && output.totalPushed !in Covered(filled)
    }

    ghost function RingModel(): Ring
      reads this, ring
    {
      Ring(ring[..], frontPos, firstUnassembled)
    }

    ghost function Model(): (a: Assembly)
      reads this, output, ring
      requires Consistent()
      ensures a.InWindow() && (Valid() ==> a.Valid())
      ensures a.out == output.Model()
    {
      Assembly(output.Model(), RingModel().Image(filled), if eofReceived then Some(eofIndex) else None)
    }

    constructor (output: ByteStream)
      requires output.Valid() && output.Model() == EmptyStream(output.capacity)
      ensures Valid() && this.output == output && fresh(ring)
      ensures Model() == EmptyAssembly(output.capacity)
    {
      this.output := output;
      firstUnpopped, firstUnassembled, firstUnacceptable := 0, 0, 0;
      eofIndex, eofReceived := 0, false;
      ringInitialized, totalCapacity, ringSize, frontPos := false, 0, 0, 0;
      ring := new byte[0];
      filled, pendingBytes := [], 0;
    }

    /** The reader's side: mark the stream as failed. */
    method SetError()
      requires Valid()
      modifies output
      ensures Valid() && Model() == old(Model()).(out := old(Model()).out.(error := true))
    {
      output.SetError();
    }

    /** The reader's side: take bytes out of the stream, which opens the window. */
    method Pop(len: nat)
      requires Valid() && len <= output.BytesBuffered()
      modifies output
      ensures Valid() && Model() == old(Model()).Pop(len)
    {
      output.Pop(len);
    }

    /** The number of bytes that wait behind a gap. */
    function CountBytesPending(): (n: nat)
      reads this, output, ring
      requires Consistent()
      ensures n == |Model().pending|
    {
      assert |Model().pending| == pendingBytes by {
        TotalIsCount(filled);
        assert Model().pending.Keys == Covered(filled);
      }
      pendingBytes
    }

    /** One slot more than the window, so that a full ring differs from an empty one. */
    method InitializeRing(capacity: nat)
      requires Consistent() && !ringInitialized
      requires capacity == output.capacity && firstUnassembled == output.totalPushed
      modifies this
      ensures Consistent() && RingReady() && fresh(ring)
      ensures Model() == old(Model())
      ensures unchanged(this`firstUnpopped, this`firstUnassembled, this`firstUnacceptable)
    {
      totalCapacity := capacity;
      ringSize := totalCapacity + 1;
      ring := new byte[ringSize](_ => 0);
      frontPos := 0;
      ringInitialized := true;
      assert Model().pending == map[] == old(Model()).pending;
    }

    /** Store `data` at consecutive ring positions, in at most two pieces around the wrap point. */
    method CopyIntoRing(absoluteIndex: nat, data: seq<byte>)
      requires ringInitialized && ring.Length == ringSize && frontPos < ringSize
      requires firstUnassembled <= absoluteIndex
      requires absoluteIndex + |data| <= firstUnassembled + ringSize
      modifies ring
      ensures Stored(old(ring[..]), ring[..], frontPos, absoluteIndex - firstUnassembled, data, |data|)
    {
      if |data| == 0 { return; }
      var offset := absoluteIndex - firstUnassembled;
      var pos := (frontPos + offset) % ringSize;
      var remaining: nat := |data|;
      var copied: nat := 0;
      SlotIsModular(frontPos, offset, ringSize);
      while remaining > 0
        invariant copied + remaining == |data|
        invariant remaining > 0 ==> pos == Slot(frontPos, offset + copied, ringSize)
        invariant Stored(old(ring[..]), ring[..], frontPos, offset, data, copied)
      {
        var chunk := Min(remaining, ringSize - pos);
        ghost var now := ring[..];
        forall j | 0 <= j < chunk {
          ring[pos + j] := data[copied + j];
        }
        assert ring[..] == now[..pos] + data[copied..copied + chunk] + now[pos + chunk..];
        StorePiece(old(ring[..]), now, frontPos, offset, data, copied, pos, chunk, ring[..]);
        if chunk < remaining {
          SlotIsModular(frontPos, offset + copied + chunk, ringSize);
        }
        pos := (pos + chunk) % ringSize;
        copied := copied + chunk;
        remaining := remaining - chunk;
      }
    }

    /** Record [start, end), merging it with every entry it touches. */
    method AddInterval(start: nat, end: nat)
      requires Separated(filled) && pendingBytes == Total(filled)
      modifies this`filled, this`pendingBytes
      ensures Separated(filled) && pendingBytes == Total(filled)
      ensures Covered(filled) == old(Covered(filled)) + Span(start, end)
    {
      if start >= end { return; }
      var it := LowerBound(filled, start);
      if it != 0 {
        if filled[it - 1].end >= start {
          it := it - 1;
        }
      }
      var newStart: nat, newEnd: nat := start, end;
      while it < |filled| && filled[it].start <= newEnd
        invariant Merging(filled, it, newStart, newEnd) && pendingBytes == Total(filled)
        invariant Covered(filled) + Span(newStart, newEnd) == old(Covered(filled)) + Span(start, end)
        decreases |filled|
      {
        if filled[it].end < newStart {
          // The program steps over such an entry; it never meets one.
          assert false;
        }
        MergeStep(filled, it, newStart, newEnd);
        newStart := Min(newStart, filled[it].start);
        newEnd := Max(newEnd, filled[it].end);
        TotalIsCount(filled[..it] + filled[it + 1..]);
        pendingBytes := pendingBytes - (filled[it].end - filled[it].start);
        filled := filled[..it] + filled[it + 1..];
      }
      InsertStep(filled, it, newStart, newEnd);
      filled := filled[..it] + [Interval(newStart, newEnd)] + filled[it..];
      pendingBytes := pendingBytes + (newEnd - newStart);
    }

    /** The bytes of the ring for `len` indices from the front, gathered in at most two pieces. */
    method ReadFront(len: nat) returns (chunk: seq<byte>)
      requires ringInitialized && ring.Length == ringSize && frontPos < ringSize && len < ringSize
      ensures |chunk| == len
      ensures forall k | 0 <= k < len :: chunk[k] == ring[Slot(frontPos, k, ringSize)]
    {
      chunk := [];
      var offset: nat := 0;
      while offset < len
        invariant |chunk| == offset <= len
        invariant forall k | 0 <= k < offset :: chunk[k] == ring[Slot(frontPos, k, ringSize)]
      {
        SlotIsModular(frontPos, offset, ringSize);
        var pos := (frontPos + offset) % ringSize;
        var chunkLen := Min(len - offset, ringSize - pos);
        ghost var before := chunk;
        chunk := chunk + ring[pos..pos + chunkLen];
        forall k | 0 <= k < offset + chunkLen
          ensures chunk[k] == ring[Slot(frontPos, k, ringSize)]
        {
          if k < offset {
            assert chunk[k] == before[k];
          } else {
            assert chunk[k] == ring[pos + (k - offset)];
          }
        }
        offset := offset + chunkLen;
      }
    }

    /** Take the entry at the front of the map, and its bytes, over into the output. */
    method FlushFront()
      requires Consistent() && filled != [] && filled[0].start == firstUnassembled
      modifies this`pendingBytes, this`firstUnassembled, this`frontPos, this`filled, output
      ensures Valid() && RingReady() && filled == old(filled)[1..]
      ensures Model() == old(Model()).Absorb()
    {
      hide Assembly.Absorb, Run, Total, Covered, Span;
      var start, end := filled[0].start, filled[0].end;
      var len: nat := end - start;
      ghost var a, r := Model(), RingModel();
      WithinFromCovered(filled, output.totalPushed, output.totalPopped + output.capacity);
      var chunk := ReadFront(len);
      FlushStep(a, r, filled, chunk);
      TailOfMap(filled, output.totalPopped + output.capacity);
      output.Push(chunk);
      pendingBytes := pendingBytes - len;
      SlotIsModular(frontPos, len, ringSize);
      firstUnassembled := end;
      frontPos := (frontPos + len) % ringSize;
      filled := filled[1..];
      assert RingModel() == r.Advance(len);
    }

    method FlushContiguous()
      requires Consistent()
      requires firstUnassembled == output.totalPushed
      modifies this`pendingBytes, this`firstUnassembled, this`frontPos, this`filled, output
      ensures Valid() && Model() == old(Model()).Absorb().CloseAtEnd()
      ensures filled == old(filled) || (old(filled) != [] && filled == old(filled)[1..])
    {
      hide Assembly.Absorb, Run, Ring.Image;
      if !ringInitialized {
        NothingToFlush(Model());
        if eofReceived && firstUnassembled == eofIndex {
          output.Close();
        }
        return;
      }
      while filled != [] && filled[0].start == firstUnassembled
        invariant Consistent() && RingReady()
        invariant Model().Absorb() == old(Model()).Absorb()
        invariant filled == old(filled) || (Valid() && old(filled) != [] && filled == old(filled)[1..])
        decreases |filled|
      {
        FlushFront();
        NothingToFlush(Model());
      }
      assert Valid() by {
        if filled != [] {
          FrontNotCovered(filled, firstUnassembled);
        }
      }
      NothingToFlush(Model());
      if eofReceived && firstUnassembled == eofIndex {
        output.Close();
      }
    }

    /** Keep the bytes from index `start` to `end`, the part of `data` that falls into the window. */
    method StoreWithin(firstIndex: nat, data: seq<byte>, start: nat, end: nat)
      requires Consistent() && RingReady() && firstIndex + |data| < TWO64
      requires start == Max(firstIndex, output.totalPushed) && start < end
      requires end == Min(firstIndex + |data|, output.totalPopped + output.capacity)
      modifies this`filled, this`pendingBytes, ring
      ensures Consistent() && Model() == old(Model()).Store(firstIndex, data)
    {
      hide Assembly.Absorb, Assembly.Store, Run, Ring.Image, Ring.At, Covered, Total, Span, Stored, Separated;
      ghost var a, r, s := Model(), RingModel(), filled;
      var piece := data[start - firstIndex..end - firstIndex];
      assert |piece| == end - start;
      CopyIntoRing(start, piece);
      AddInterval(start, end);
      hide Reassembler.Model, Reassembler.Consistent;
      StoreStep(a, firstIndex, data, r, RingModel(), s, filled, start, end);
    }

    /** The part of `Insert` that keeps the bytes falling into the window. */
    method StoreClipped(firstIndex: nat, data: seq<byte>, segmentEndIndex: nat)
      requires Consistent() && RingReady()
      requires |data| < TWO64
      requires segmentEndIndex == firstIndex + |data| - if firstIndex + |data| < TWO64 then 0 else TWO64
      requires firstUnacceptable == output.totalPopped + output.capacity
      modifies this`filled, this`pendingBytes, ring
      ensures Consistent() && Model() == old(Model()).Store(firstIndex, data)
    {
      hide Assembly.Absorb, Assembly.Store, Run, Ring.Image, Ring.At, Covered, Total, Span, Separated;
      var clippedStart := Max(firstIndex, firstUnassembled);
      var clippedEnd := Min(segmentEndIndex, firstUnacceptable);
      if clippedStart < clippedEnd {
        StoreWithin(firstIndex, data, clippedStart, clippedEnd);
      } else {
        NothingToStore(Model(), firstIndex, data);
      }
    }

    /** The part of `Insert` that recomputes the window, and lays out the ring when there is one. */
    method RefreshWindow()
      requires Valid()
      modifies this
      ensures Valid() && Model() == old(Model())
      ensures firstUnassembled == output.totalPushed
      ensures firstUnacceptable == output.totalPopped + output.capacity
      ensures !ringInitialized ==> firstUnacceptable == firstUnassembled
      ensures ring == old(ring) || fresh(ring)
    {
      EmptyImage(RingModel());
      var bufferedInByteStream := output.BytesBuffered();
      var availableCapacity := output.AvailableCapacity();
      firstUnpopped := output.totalPopped;
      firstUnassembled := firstUnpopped + bufferedInByteStream;
      firstUnacceptable := firstUnassembled + availableCapacity;
      EmptyImage(RingModel());
      var capacity := bufferedInByteStream + availableCapacity;
      if !ringInitialized && capacity > 0 {
        InitializeRing(capacity);
      }
    }

    /** Accept a substring of the stream: the ring and the interval map do exactly what the map
        from index to byte does. */
    method Insert(firstIndex: nat, data: seq<byte>, isLastSubstring: bool)
      requires Valid() && firstIndex < TWO64 && |data| < TWO64
      modifies this, output, ring
      ensures Valid() && Model() == old(Model()).Insert(firstIndex, data, isLastSubstring)
      ensures ring == old(ring) || fresh(ring)
    {
      hide Assembly.Absorb, Assembly.Store, Run, Ring.Image, Covered, Total, Span, Separated;
      var segmentEndIndex := (firstIndex + |data|) % TWO64;
      RefreshWindow();
      if isLastSubstring {
        eofReceived := true;
        eofIndex := segmentEndIndex;
      }
      ghost var marked := Model();
      assert marked == if isLastSubstring then old(Model()).(eof := Some(segmentEndIndex)) else old(Model());
      if !ringInitialized || segmentEndIndex <= firstUnassembled || |data| == 0 {
        NothingToStore(marked, firstIndex, data);
        FlushContiguous();
        return;
      }
      StoreClipped(firstIndex, data, segmentEndIndex);
      FlushContiguous();
    }
  }
}
