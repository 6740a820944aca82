/** 32-bit sequence numbers and their conversion to and from absolute 64-bit ones. */
module WrappingIntegers {
  import opened Common

  datatype Wrap32 = Wrap32(raw: u32) {
    /** Unsigned 32-bit addition. */
    function Plus(n: u32): Wrap32 {
      Wrap32((raw + n) % TWO32)
    }
  }

  /** Checkpoints from here on can make `Unwrap` run off the end of 64 bits. */
  const CHECKPOINT_LIMIT: nat := TWO64 - TWO32

  function Wrap(n: nat, zero: Wrap32): Wrap32 {
    zero.Plus(n % TWO32)
  }

  /** The absolute number for `w`, near `checkpoint`; a 64-bit result, so the last addition wraps. */
  function Unwrap(w: Wrap32, zero: Wrap32, checkpoint: nat): (x: nat)
    requires checkpoint < TWO64
    ensures x < TWO64
  {
    var offset := (w.raw - zero.raw) % TWO32;
    var candidate := offset + (checkpoint - checkpoint % TWO32);
    if candidate > checkpoint && candidate - checkpoint > TWO31 && candidate > TWO32 then
      candidate - TWO32
    else if candidate < checkpoint && checkpoint - candidate > TWO31 then
      (candidate + TWO32) % TWO64
    else
      candidate
  }

  /** `x` is one of the 64-bit absolute numbers that `w` may stand for. */
  predicate Represents(x: nat, w: Wrap32, zero: Wrap32) {
    x < TWO64 && Wrap(x, zero) == w
  }

  function Distance(x: nat, y: nat): nat {
    if x <= y then y - x else x - y
  }

  ghost predicate IsNearest(x: nat, w: Wrap32, zero: Wrap32, checkpoint: nat) {
    && Represents(x, w, zero)
    && forall y: nat :: Represents(y, w, zero) ==> Distance(x, checkpoint) <= Distance(y, checkpoint)
  }

  /** The guard of the failing branch: the checkpoint lies in the last 2^32 block of the 64-bit
      range and the wanted number would lie in the block after it. */
  predicate RunsOffTheEnd(w: Wrap32, zero: Wrap32, checkpoint: nat) {
    checkpoint >= CHECKPOINT_LIMIT && checkpoint > (w.raw - zero.raw) % TWO32 + CHECKPOINT_LIMIT + TWO31
  }

  /** Writing a number in base 2^32: quotient and remainder are the only such pair. */
  lemma SplitByBlock(x: nat, block: nat, offset: nat)
    requires x == block * TWO32 + offset && offset < TWO32
    ensures x % TWO32 == offset && x / TWO32 == block
  {
  }

  /** `x` represents `w` exactly when the low 32 bits of `x` are the offset of `w`. */
  lemma RepresentsOffset(x: nat, w: Wrap32, zero: Wrap32)
    requires x < TWO64
    ensures Represents(x, w, zero) <==> x % TWO32 == (w.raw - zero.raw) % TWO32
  {
  }

  /** Section 3.4 of RFC 9293: of all 64-bit numbers that wrap to `w`, none is closer to the
      checkpoint than the one returned, unless the computation runs off the end of 64 bits. */
  lemma UnwrapIsNearest(w: Wrap32, zero: Wrap32, checkpoint: nat)
    requires checkpoint < TWO64
    ensures IsNearest(Unwrap(w, zero, checkpoint), w, zero, checkpoint) <==> !RunsOffTheEnd(w, zero, checkpoint)
  {
    var offset := (w.raw - zero.raw) % TWO32;
    var block := checkpoint / TWO32;
    var candidate := offset + block * TWO32;
    var x := Unwrap(w, zero, checkpoint);
    assert checkpoint == block * TWO32 + checkpoint % TWO32;
    SplitByBlock(candidate, block, offset);
    if RunsOffTheEnd(w, zero, checkpoint) {
      assert block == TWO32 - 1;
      assert x == offset;
      RepresentsOffset(candidate, w, zero);
      assert Represents(candidate, w, zero) && Distance(candidate, checkpoint) < Distance(x, checkpoint);
    } else {
      assert x % TWO32 == offset by {
        if x == candidate - TWO32 {
          SplitByBlock(x, block - 1, offset);
        } else if x != candidate {
          SplitByBlock(x, block + 1, offset);
        }
      }
      RepresentsOffset(x, w, zero);
      forall y: nat | Represents(y, w, zero)
        ensures Distance(x, checkpoint) <= Distance(y, checkpoint)
      {
        RepresentsOffset(y, w, zero);
        NoneCloser(offset, block, y / TWO32, checkpoint, x);
      }
    }
  }

  /** The failing branch is real: from the largest 64-bit checkpoint, 0 is returned, although
      2^64 - 2^32 stands for the same 32 bits and is nearer. */
  lemma RunsOffAtTheTop()
    ensures RunsOffTheEnd(Wrap32(0), Wrap32(0), TWO64 - 1)
    ensures Unwrap(Wrap32(0), Wrap32(0), TWO64 - 1) == 0
    ensures Represents(CHECKPOINT_LIMIT, Wrap32(0), Wrap32(0))
    ensures Distance(CHECKPOINT_LIMIT, TWO64 - 1) < Distance(0, TWO64 - 1)
  {
  }

  /** The comparison at the heart of `UnwrapIsNearest`, for a rival `offset + rival * 2^32`. */
  lemma NoneCloser(offset: nat, block: nat, rival: nat, checkpoint: nat, x: nat)
    requires offset < TWO32 && block * TWO32 <= checkpoint < block * TWO32 + TWO32
    requires
      var candidate := offset + block * TWO32;
      x == if candidate > checkpoint && candidate - checkpoint > TWO31 && candidate > TWO32 then candidate - TWO32
           else if candidate < checkpoint && checkpoint - candidate > TWO31 then candidate + TWO32
           else candidate
    ensures Distance(x, checkpoint) <= Distance(offset + rival * TWO32, checkpoint)
  {
    if rival < block {
      assert rival * TWO32 <= block * TWO32 - TWO32;
    } else if rival > block {
      assert rival * TWO32 >= block * TWO32 + TWO32;
    }
  }

  /** A number within 2^31 of the checkpoint survives the trip through 32 bits. */
  lemma UnwrapOfWrap(n: nat, zero: Wrap32, checkpoint: nat)
    requires checkpoint < CHECKPOINT_LIMIT && n < TWO64
    requires Distance(n, checkpoint) < TWO31
    ensures Unwrap(Wrap(n, zero), zero, checkpoint) == n
  {
    var w := Wrap(n, zero);
    UnwrapIsNearest(w, zero, checkpoint);
    var x := Unwrap(w, zero, checkpoint);
    assert Represents(n, w, zero);
    assert Distance(x, checkpoint) < TWO31;
    RepresentsOffset(n, w, zero);
    RepresentsOffset(x, w, zero);
    CongruentAndClose(x, n);
  }

  lemma CongruentAndClose(x: nat, n: nat)
    requires x % TWO32 == n % TWO32 && Distance(x, n) < TWO32
    ensures x == n
  {
    assert x == (x / TWO32) * TWO32 + x % TWO32;
    assert n == (n / TWO32) * TWO32 + n % TWO32;
  }

  lemma WrapZero(zero: Wrap32)
    ensures Wrap(0, zero) == zero
  {
  }
}
