/** The flow-controlled byte stream: its meaning as a value, and the buffer that implements it. */
module ByteStreams {
  import opened Common

  /** A byte stream as its users see it: every byte ever accepted, and how many were taken out. */
  datatype Stream = Stream(capacity: nat, data: seq<byte>, popped: nat, closed: bool, error: bool) {

    ghost predicate Valid() {
      popped <= |data| <= popped + capacity
    }

    function Buffer(): seq<byte>
      requires popped <= |data|
    {
      data[popped..]
    }

    function Buffered(): nat
      requires popped <= |data|
    {
      |data| - popped
    }

    function Available(): nat
      requires Valid()
    {
      capacity - (|data| - popped)
    }

    function Push(bytes: seq<byte>): (r: Stream)
      requires Valid()
      ensures r.Valid()
    {
      this.(data := data + bytes[..Min(|bytes|, Available())])
    }

    function Pop(n: nat): (r: Stream)
      requires Valid() && n <= Buffered()
      ensures r.Valid()
    {
      this.(popped := popped + n)
    }

    predicate IsFinished() {
      closed && popped == |data|
    }
  }

  function EmptyStream(capacity: nat): (s: Stream)
    ensures s.Valid()
  {
    Stream(capacity, [], 0, false, false)
  }

  /** The stream's storage: only the bytes still buffered, plus running totals. */
  class ByteStream {
    const capacity: nat
    var error: bool
    var buffer: seq<byte>
    var totalPushed: nat
    var totalPopped: nat
    var closed: bool
    ghost var data: seq<byte>

    ghost predicate Valid()
      reads this
    {
      && totalPushed == |data|
      && totalPopped <= totalPushed <= totalPopped + capacity
      && buffer == data[totalPopped..]
    }

    ghost function Model(): (s: Stream)
      reads this
      requires Valid()
      ensures s.Valid()
    {
      Stream(capacity, data, totalPopped, closed, error)
    }

    constructor (capacity: nat)
      ensures Valid() && Model() == EmptyStream(capacity)
    {
      this.capacity := capacity;
      error, buffer, totalPushed, totalPopped, closed := false, [], 0, 0, false;
      data := [];
    }

    method Push(bytes: seq<byte>)
      requires Valid()
      modifies this
      ensures Valid() && Model() == old(Model()).Push(bytes)
    {
      var maxLen := capacity - (totalPushed - totalPopped);
      if |bytes| <= maxLen {
        assert bytes[..|bytes|] == bytes;
        buffer := buffer + bytes;
        totalPushed := totalPushed + |bytes|;
        data := data + bytes;
      } else {
        buffer := buffer + bytes[..maxLen];
        totalPushed := totalPushed + maxLen;
        data := data + bytes[..maxLen];
      }
    }

    method Close()
      requires Valid()
      modifies this
      ensures Valid() && Model() == old(Model()).(closed := true)
    {
      closed := true;
    }

    method SetError()
      requires Valid()
      modifies this
      ensures Valid() && Model() == old(Model()).(error := true)
    {
      error := true;
    }

    function AvailableCapacity(): (n: nat)
      reads this
      requires Valid()
      ensures n == Model().Available()
    {
      capacity - (totalPushed - totalPopped)
    }

    function Peek(): (view: seq<byte>)
      reads this
      requires Valid()
      ensures view == Model().Buffer()
    {
      buffer
    }

    function BytesBuffered(): (n: nat)
      reads this
      requires Valid()
      ensures n == |Peek()|
    {
      totalPushed - totalPopped
    }

    predicate IsFinished()
      reads this
      requires Valid()
      ensures IsFinished() == Model().IsFinished()
    {
      closed && totalPopped == totalPushed
    }

    method Pop(len: nat)
      requires Valid() && len <= BytesBuffered()
      modifies this
      ensures Valid() && Model() == old(Model()).Pop(len)
    {
      buffer := buffer[len..];
      totalPopped := totalPopped + len;
    }
  }
}
