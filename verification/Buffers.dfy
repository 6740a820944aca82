/** Byte buffers made of chunks: numbers are read and written byte by byte across chunk boundaries. */
module Buffers {
  import opened Common

  /** 256^n, the number of values that `n` bytes can hold. */
  function Power(n: nat): (p: nat)
    ensures p > 0
  {
    if n == 0 then 1 else 256 * Power(n - 1)
  }

  /** The operator `>>` by `n` whole bytes. */
  function ShiftBytes(x: nat, n: nat): nat {
    if n == 0 then x else ShiftBytes(x / 256, n - 1)
  }

  /** The lowest `n` bytes of a number, most significant first. */
  function BigEndian(x: nat, n: nat): (s: seq<byte>)
    ensures |s| == n
  {
    if n == 0 then [] else BigEndian(x / 256, n - 1) + [(x % 256) as byte]
  }

  function FromBigEndian(s: seq<byte>): (x: nat)
    ensures x < Power(|s|)
  {
    if s == [] then 0 else FromBigEndian(s[..|s| - 1]) * 256 + s[|s| - 1] as nat
  }

  /** Writing a number and reading it back gives the number, if it fits. */
  lemma {:induction false} ReadBack(x: nat, n: nat)
    requires x < Power(n)
    ensures FromBigEndian(BigEndian(x, n)) == x
  {
    if n > 0 {
      ReadBack(x / 256, n - 1);
      assert BigEndian(x, n)[..n - 1] == BigEndian(x / 256, n - 1);
    }
  }

  /** Reading bytes and writing them again gives the bytes. */
  lemma {:induction false} WriteBack(s: seq<byte>)
    ensures BigEndian(FromBigEndian(s), |s|) == s
  {
    if s != [] {
      WriteBack(s[..|s| - 1]);
    }
  }

  /** Byte `i` is found by shifting the bytes after it away. */
  lemma {:induction false} BigEndianAt(x: nat, n: nat, i: nat)
    requires i < n
    ensures BigEndian(x, n)[i] as nat == ShiftBytes(x, n - 1 - i) % 256
  {
    if i < n - 1 {
      BigEndianAt(x / 256, n - 1, i);
    }
  }

  lemma {:induction false} PowerGrows(m: nat, n: nat)
    requires m <= n
    ensures Power(m) <= Power(n)
  {
    if m < n {
      PowerGrows(m, n - 1);
    }
  }

  /** Shifting a number of `i` bytes by one more byte loses nothing in a wider word. */
  lemma ShiftFits(x: nat, i: nat, width: nat)
    requires x < Power(i) && i < width
    ensures x * 256 % Power(width) == x * 256
  {
    PowerGrows(i + 1, width);
    SmallRemainder(x * 256, Power(width));
  }

  lemma SmallRemainder(x: nat, m: nat)
    requires x < m
    ensures x % m == x
  {
  }

  predicate NoEmptyChunk(chunks: seq<seq<byte>>) {
    forall k | 0 <= k < |chunks| :: chunks[k] != []
  }

  /** Chunks still to be read; the first `skip` bytes of the first chunk are gone already. */
  class BufferList {
    var size: nat
    var buffer: seq<seq<byte>>
    var skip: nat

    ghost predicate Valid()
      reads this
    {
      && NoEmptyChunk(buffer)
      && (if buffer == [] then skip == 0 else skip < |buffer[0]|)
      && size == |Flatten(buffer)| - skip
    }

    ghost function Contents(): (bytes: seq<byte>)
      reads this
      requires Valid()
      ensures |bytes| == size && (size == 0 <==> buffer == [])
    {
      Flatten(buffer)[skip..]
    }

    constructor (chunks: seq<seq<byte>>)
      requires NoEmptyChunk(chunks)
      ensures Valid() && Contents() == Flatten(chunks)
    {
      size, buffer, skip := 0, [], 0;
      new;
      for i := 0 to |chunks|
        invariant buffer == chunks[..i] && skip == 0 && size == |Flatten(buffer)|
      {
        FlattenConcat(buffer, [chunks[i]]);
        assert Flatten([chunks[i]]) == chunks[i];
        buffer := buffer + [chunks[i]];
        size := size + |chunks[i]|;
      }
      assert chunks[..|chunks|] == chunks;
    }

    function Peek(): (view: seq<byte>)
      reads this
      requires Valid() && buffer != []
      ensures view != [] && view <= Contents()
    {
      assert Flatten(buffer)[skip..] == buffer[0][skip..] + Flatten(buffer[1..]);
      buffer[0][skip..]
    }

    /** Drop the first `len` bytes, or all if there are fewer. */
    method RemovePrefix(len: nat)
      requires Valid()
      modifies this
      ensures Valid() && Contents() == old(Contents())[Min(len, old(size))..]
    {
      var left: nat := len;
      while left > 0 && buffer != []
        invariant Valid() && left <= len
        invariant Contents()[Min(left, size)..] == old(Contents())[Min(len, old(size))..]
        decreases |buffer|, left
      {
        var toPopNow := Min(left, |Peek()|);
        left := left - toPopNow;
        DropFromFront(toPopNow);
      }
    }

    /** Use up part of the first chunk, or all of it. */
    method DropFromFront(n: nat)
      requires Valid() && buffer != [] && n <= |Peek()|
      modifies this
      ensures Valid() && Contents() == old(Contents())[n..]
      ensures |buffer| < |old(buffer)| || (buffer == old(buffer) && n < |old(Peek())|)
    {
      DropWithinChunk(buffer, skip, n);
      skip := skip + n;
      size := size - n;
      if skip == |buffer[0]| {
        buffer := buffer[1..];
        skip := 0;
      }
      hide Flatten;
    }

    lemma DropWithinChunk(chunks: seq<seq<byte>>, from: nat, n: nat)
      requires chunks != [] && from + n <= |chunks[0]|
      ensures |Flatten(chunks)| == |chunks[0]| + |Flatten(chunks[1..])|
      ensures Flatten(chunks)[from..][n..] == Flatten(chunks)[from + n..]
      ensures Flatten(chunks)[|chunks[0]|..] == Flatten(chunks[1..])
    {
    }

    /** Views of all that is left. */
    method Buffer() returns (views: seq<seq<byte>>)
      requires Valid()
      ensures Flatten(views) == Contents()
    {
      views := [];
      if size == 0 {
        return;
      }
      var tmpSkip := skip;
      for i := 0 to |buffer|
        invariant tmpSkip == if i == 0 then skip else 0
        invariant Flatten(views) + Flatten(buffer[i..])[tmpSkip..] == Contents()
      {
        FlattenConcat(views, [buffer[i][tmpSkip..]]);
        assert Flatten([buffer[i][tmpSkip..]]) == buffer[i][tmpSkip..];
        assert buffer[i..][1..] == buffer[i + 1..];
        views := views + [buffer[i][tmpSkip..]];
        tmpSkip := 0;
      }
    }

    /** Hand over all that is left; the list is of no use afterwards. */
    method DumpAll() returns (out: seq<seq<byte>>)
      requires Valid()
      modifies this
      ensures Flatten(out) == old(Contents())
    {
      out := [];
      if size == 0 {
        return;
      }
      if skip > 0 {
        out := [buffer[0][skip..]];
      } else {
        out := [buffer[0]];
      }
      buffer := buffer[1..];
      for i := 0 to |buffer|
        invariant unchanged(this`skip) && buffer == old(buffer)[1..]
        invariant Flatten(out) + Flatten(buffer[i..]) == old(Contents())
      {
        FlattenConcat(out, [buffer[i]]);
        assert Flatten([buffer[i]]) == buffer[i] && buffer[i..][1..] == buffer[i + 1..];
        out := out + [buffer[i]];
      }
    }
  }

  class Parser {
    const input: BufferList
    var error: bool

    ghost predicate Valid()
      reads this, input
    {
      input.Valid()
    }

    ghost function Contents(): seq<byte>
      reads this, input
      requires Valid()
    {
      input.Contents()
    }

    constructor (chunks: seq<seq<byte>>)
      requires NoEmptyChunk(chunks)
      ensures Valid() && Contents() == Flatten(chunks) && !error && fresh(input)
    {
      input := new BufferList(chunks);
      error := false;
    }

    /** Read an unsigned number of `width` bytes into a variable that holds `before`; it keeps that
        value when too few bytes are left, or after an earlier error. */
    method Integer(width: nat, before: nat) returns (out: nat)
      requires Valid() && width > 0
      modifies this, input
      ensures Valid() && error == (old(error) || |old(Contents())| < width)
      ensures
        if error then out == before && Contents() == old(Contents())
        else out == FromBigEndian(old(Contents())[..width]) && Contents() == old(Contents())[width..]
    {
      if width > input.size {
        error := true;
      }
      out := before;
      if error {
        return;
      }
      ghost var bytes := Contents();
      if width == 1 {
        out := input.Peek()[0] as nat;
        input.RemovePrefix(1);
        assert bytes[..1][..0] == [];
        return;
      }
      out := 0;
      for i := 0 to width
        invariant Valid() && !error && Contents() == bytes[i..]
        invariant out == FromBigEndian(bytes[..i])
      {
        ShiftFits(FromBigEndian(bytes[..i]), i, width);
        assert bytes[..i + 1][..i] == bytes[..i];
        // The shift leaves the low byte zero, so the bitwise `or` that follows it is an addition.
        out := out * 256 % Power(width);
        out := out + input.Peek()[0] as nat;
        input.RemovePrefix(1);
      }
    }

    method RemovePrefix(n: nat)
      requires Valid()
      modifies input
      ensures Valid() && Contents() == old(Contents())[Min(n, |old(Contents())|)..]
    {
      input.RemovePrefix(n);
    }

    /** Everything that is left, in one piece. */
    method ConcatenateAllRemaining() returns (out: seq<byte>)
      requires Valid()
      modifies input
      ensures out == old(Contents())
    {
      var chunks := input.DumpAll();
      out := [];
      if chunks == [] {
        return;
      }
      out := chunks[0];
      for i := 1 to |chunks|
        invariant out + Flatten(chunks[i..]) == Flatten(chunks)
      {
        assert chunks[i..][1..] == chunks[i + 1..];
        out := out + chunks[i];
      }
    }
  }

  /** Numbers gather in `buffer` until a whole chunk is added. */
  class Serializer {
    var output: seq<seq<byte>>
    var buffer: seq<byte>

    ghost predicate Valid()
      reads this
    {
      NoEmptyChunk(output)
    }

    ghost function Contents(): seq<byte>
      reads this
    {
      Flatten(output) + buffer
    }

    constructor ()
      ensures Valid() && Contents() == []
    {
      output, buffer := [], [];
    }

    method Integer(val: nat, width: nat)
      requires Valid()
      modifies this`buffer
      ensures Valid() && Contents() == old(Contents()) + BigEndian(val, width)
    {
      for i := 0 to width
        invariant buffer == old(buffer) + BigEndian(val, width)[..i]
      {
        BigEndianAt(val, width, i);
        var byteVal := (ShiftBytes(val, width - i - 1) % 256) as byte;
        buffer := buffer + [byteVal];
      }
    }

    method Flush()
      requires Valid()
      modifies this
      ensures Valid() && Contents() == old(Contents()) && buffer == []
    {
      if buffer != [] {
        FlattenConcat(output, [buffer]);
        assert Flatten([buffer]) == buffer;
        output := output + [buffer];
        buffer := [];
      }
    }

    method Buffer(buf: seq<byte>)
      requires Valid()
      modifies this
      ensures Valid() && Contents() == old(Contents()) + buf
    {
      if buf != [] {
        Flush();
        FlattenConcat(output, [buf]);
        assert Flatten([buf]) == buf;
        output := output + [buf];
      }
    }

    method Finish() returns (chunks: seq<seq<byte>>)
      requires Valid()
      modifies this
      ensures NoEmptyChunk(chunks) && Flatten(chunks) == old(Contents())
    {
      Flush();
      chunks := output;
      output := [];
    }
  }
}
