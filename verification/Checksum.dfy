/** The Internet checksum of RFC 1071, added up byte by byte across chunks. */
module Checksums {
  import opened Common

  /** The sum of 16-bit big-endian words; `odd` tells that the first byte is the low half of one. */
  function Sum(data: seq<byte>, odd: bool): nat {
    if data == [] then 0
    else (if odd then data[0] as nat else 256 * data[0] as nat) + Sum(data[1..], !odd)
  }

  predicate Odd(n: nat) {
    n % 2 == 1
  }

  lemma OddSum(m: nat, n: nat)
    ensures Odd(m + n) == (Odd(m) != Odd(n))
  {
  }

  /** Cutting the data anywhere leaves the sum as it is, if the parity is carried over. */
  lemma {:induction false} SumConcat(a: seq<byte>, b: seq<byte>, odd: bool)
    ensures Sum(a + b, odd) == Sum(a, odd) + Sum(b, odd != Odd(|a|))
  {
    if a == [] {
      assert a + b == b;
    } else {
      SumConcat(a[1..], b, !odd);
      assert (a + b)[1..] == a[1..] + b;
    }
  }

  /** Adding the carries back in until 16 bits are left. */
  function Fold(x: nat): (r: nat)
    ensures r <= 0xffff
    ensures r % 0xffff == x % 0xffff
    ensures r == 0 <==> x == 0
  {
    if x <= 0xffff then x
    else
      assert x == (x / TWO16) * 0xffff + (x / TWO16 + x % TWO16);
      SameRemainder(x / TWO16, x / TWO16 + x % TWO16);
      Fold(x / TWO16 + x % TWO16)
  }

  lemma SameRemainder(k: nat, r: nat)
    ensures (k * 0xffff + r) % 0xffff == r % 0xffff
  {
  }

  /** The ones' complement of the folded sum, in 16 bits. */
  function Complement(sum: nat): u16 {
    0xffff - Fold(sum)
  }

  lemma WithoutCarries(sum: u32, carries: nat, total: nat)
    requires sum + carries * TWO32 == total
    ensures sum == total % TWO32
  {
  }

  class InternetChecksum {
    var sum: u32
    var parity: bool

    constructor (sum: u32)
      ensures this.sum == sum && !parity
    {
      this.sum := sum;
      parity := false;
    }

    /** Unsigned 32-bit additions, one byte at a time. */
    method Add(data: seq<byte>)
      modifies this
      ensures sum == (old(sum) + Sum(data, old(parity))) % TWO32
      ensures parity == (old(parity) != Odd(|data|))
    {
      ghost var carries: nat := 0;
      for i := 0 to |data|
        invariant sum + carries * TWO32 + Sum(data[i..], parity) == old(sum) + Sum(data, old(parity))
        invariant parity == (old(parity) != Odd(i))
      {
        var val: nat := data[i] as nat;
        if !parity {
          val := 256 * val;
        }
        assert data[i..][1..] == data[i + 1..];
        carries := carries + (sum + val) / TWO32;
        sum := (sum + val) % TWO32;
        parity := !parity;
      }
      WithoutCarries(sum, carries, old(sum) + Sum(data, old(parity)));
    }

    /** All chunks in turn: the same as adding their concatenation. */
    method AddAll(chunks: seq<seq<byte>>)
      modifies this
      ensures sum == (old(sum) + Sum(Flatten(chunks), old(parity))) % TWO32
      ensures parity == (old(parity) != Odd(|Flatten(chunks)|))
    {
      ghost var all, carries: nat := Flatten(chunks), 0;
      for i := 0 to |chunks|
        invariant sum + carries * TWO32 + Sum(Flatten(chunks[i..]), parity) == old(sum) + Sum(all, old(parity))
        invariant (parity != Odd(|Flatten(chunks[i..])|)) == (old(parity) != Odd(|all|))
      {
        assert chunks[i..][1..] == chunks[i + 1..];
        SumConcat(chunks[i], Flatten(chunks[i + 1..]), parity);
        carries := carries + (sum + Sum(chunks[i], parity)) / TWO32;
        OddSum(|chunks[i]|, |Flatten(chunks[i + 1..])|);
        hide Sum, Odd;
        Add(chunks[i]);
      }
      WithoutCarries(sum, carries, old(sum) + Sum(all, old(parity)));
    }

    /** Fold until 16 bits are left, and complement. */
    method Value() returns (value: u16)
      ensures value == Complement(sum)
    {
      var ret: nat := sum;
      while ret > 0xffff
        invariant Fold(ret) == Fold(sum)
      {
        ret := ret / TWO16 + ret % TWO16;
      }
      value := 0xffff - ret;
    }
  }

  /** A sum is accepted when its complement is zero. */
  predicate Accepted(sum: nat) {
    Complement(sum) == 0
  }

  /** Adding the complement of a 32-bit sum to it never carries out of 32 bits, because 2^32 - 1 is
      a multiple of 65535, and gives an accepted sum. */
  lemma ComplementAccepts(sum: u32)
    ensures sum + Complement(sum) < TWO32 && Accepted(sum + Complement(sum))
  {
    var r := Fold(sum);
    FoldedIsLess(sum);
    DifferenceDivides(sum, r);
    hide Fold;
    assert sum + Complement(sum) == sum - r + 0xffff;
    MultipleStaysWithin(sum, r);
    MultipleFoldsFull(sum - r + 0xffff);
  }

  lemma {:induction false} FoldedIsLess(x: nat)
    ensures Fold(x) <= x && (Fold(x) == 0 ==> x == 0)
  {
    if x > 0xffff {
      FoldedIsLess(x / TWO16 + x % TWO16);
    }
  }

  lemma DifferenceDivides(x: nat, r: nat)
    requires r % 0xffff == x % 0xffff && r <= x
    ensures (x - r + 0xffff) % 0xffff == 0
  {
    assert x == (x / 0xffff) * 0xffff + x % 0xffff;
    assert r == (r / 0xffff) * 0xffff + r % 0xffff;
  }

  /** The multiples of 65535 up to x + 65534 do not go beyond 65537 * 65535 = 2^32 - 1. */
  lemma MultipleStaysWithin(x: u32, r: nat)
    requires r <= x && (r == 0 ==> x == 0) && (x - r + 0xffff) % 0xffff == 0
    ensures x - r + 0xffff < TWO32
  {
    var m := (x - r + 0xffff) / 0xffff;
    assert x - r + 0xffff == m * 0xffff;
    assert x > 0 ==> m * 0xffff <= x + 0xfffe;
    assert TWO32 - 1 == 65537 * 0xffff;
  }

  lemma MultipleFoldsFull(total: nat)
    requires total % 0xffff == 0 && total > 0
    ensures Fold(total) == 0xffff
  {
    assert Fold(total) % 0xffff == 0;
  }
}
