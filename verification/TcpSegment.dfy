/** The TCP segment on the wire: section 3.1 of RFC 9293, with the checksum of RFC 1071. */
module TCPSegments {
  import opened Common
  import opened WrappingIntegers
  import opened Messages
  import opened Checksums
  import opened Buffers

  const HEADER_LENGTH: nat := 20

  /** A message together with its ports and its checksum. */
  datatype WireSegment = WireSegment(message: TCPMessage, srcPort: u16, dstPort: u16, cksum: u16)

  /** The two reset flags share one bit. */
  predicate Reset(m: TCPMessage) {
    m.sender.rst || m.receiver.rst
  }

  function Flags(m: TCPMessage): (f: u8) {
    (if m.receiver.ackno.Some? then 16 else 0) + (if Reset(m) then 4 else 0)
    + (if m.sender.syn then 2 else 0) + (if m.sender.fin then 1 else 0)
  }

  predicate Flag(flags: nat, mask: nat)
    requires mask > 0
  {
    flags / mask % 2 == 1
  }

  function AckField(m: TCPMessage): u32 {
    if m.receiver.ackno.Some? then m.receiver.ackno.value.raw else 0
  }

  /** The header up to the checksum, and everything after it. */
  function Front(s: WireSegment): (bytes: seq<byte>)
    ensures |bytes| == 16
  {
    BigEndian(s.srcPort, 2) + BigEndian(s.dstPort, 2)
    + BigEndian(s.message.sender.seqno.raw, 4) + BigEndian(AckField(s.message), 4)
    + BigEndian(80, 1) + BigEndian(Flags(s.message), 1)
    + BigEndian(s.message.receiver.windowSize, 2)
  }

  function Encode(s: WireSegment): (bytes: seq<byte>)
    ensures |bytes| == HEADER_LENGTH + |s.message.sender.payload|
  {
    Front(s) + BigEndian(s.cksum, 2) + BigEndian(0, 2) + s.message.sender.payload
  }

  function Field(bytes: seq<byte>, from: nat, width: nat): (x: nat)
    requires from + width <= |bytes|
    ensures x < Power(width)
  {
    FromBigEndian(bytes[from..from + width])
  }

  /** What the checksum is computed from: pseudo-header and datagram, added up in 32 bits. */
  function Total(bytes: seq<byte>, pseudo: u32): u32 {
    (pseudo + Sum(bytes, false)) % TWO32
  }

  /** The message in a datagram, given the sum of its pseudo-header. It is refused when the checksum
      fails, or the header is too short or claims to be. Options are skipped. */
  function Decode(bytes: seq<byte>, pseudo: u32): Option<WireSegment> {
    if !Accepted(Total(bytes, pseudo)) then None
    else if |bytes| < HEADER_LENGTH then None
    else if Field(bytes, 12, 1) / 16 * 4 < HEADER_LENGTH then None
    else Some(Fields(bytes))
  }

  function Fields(bytes: seq<byte>): WireSegment
    requires |bytes| >= HEADER_LENGTH
  {
    HeaderFields(bytes, bytes[Min(Field(bytes, 12, 1) / 16 * 4, |bytes|)..])
  }

  /** The segment with this header and payload. */
  function HeaderFields(bytes: seq<byte>, payload: seq<byte>): WireSegment
    requires |bytes| >= HEADER_LENGTH
  {
    PowersUsed();
    var flags := Field(bytes, 13, 1);
    var sender := SenderMessage(Wrap32(Field(bytes, 4, 4)), Flag(flags, 2), payload, Flag(flags, 1), Flag(flags, 4));
    var receiver := ReceiverMessage(if Flag(flags, 16) then Some(Wrap32(Field(bytes, 8, 4))) else None,
                                    Field(bytes, 14, 2), Flag(flags, 4));
    WireSegment(TCPMessage(sender, receiver), Field(bytes, 0, 2), Field(bytes, 2, 2), Field(bytes, 16, 2))
  }

  /** Filling in what follows the options completes the header to the whole segment. */
  lemma PayloadAdded(bytes: seq<byte>, header: WireSegment, payload: seq<byte>)
    requires |bytes| >= HEADER_LENGTH && Field(bytes, 12, 1) / 16 * 4 >= HEADER_LENGTH
    requires header == HeaderFields(bytes, header.message.sender.payload)
    requires
      var options := Field(bytes, 12, 1) / 16 * 4 - HEADER_LENGTH;
      payload == bytes[HEADER_LENGTH..][Min(options, |bytes| - HEADER_LENGTH)..]
    ensures
      header.(message := TCPMessage(header.message.sender.(payload := payload), header.message.receiver)) == Fields(bytes)
  {
    hide Field, Flag;
  }

  lemma PowersUsed()
    ensures Power(1) == 256 && Power(2) == TWO16 && Power(4) == TWO32
  {
    assert Power(0) == 1 && Power(3) == 256 * Power(2);
  }

  /** The same segment with both reset flags set if either was. */
  function Merged(s: WireSegment): WireSegment {
    s.(message := TCPMessage(s.message.sender.(rst := Reset(s.message)), s.message.receiver.(rst := Reset(s.message))))
  }

  /** The 32-bit sum that the checksum has to cancel. */
  function Uncovered(s: WireSegment, pseudo: u32): u32 {
    Total(Encode(s.(cksum := 0)), pseudo)
  }

  /** The segment with the checksum that `ComputeChecksum` stores. */
  function Sealed(s: WireSegment, pseudo: u32): WireSegment {
    s.(cksum := Complement(Uncovered(s, pseudo)))
  }

  /** Every field of an encoded segment is found where it was put. */
  lemma FieldsOfEncoding(s: WireSegment)
    ensures Field(Encode(s), 12, 1) == 80
    ensures Fields(Encode(s)) == Merged(s)
  {
    var m, bytes := s.message, Encode(s);
    PowersUsed();
    hide Power, BigEndian, FromBigEndian, Encode, Flags, Flag;
    ReadBack(s.srcPort, 2);
    ReadBack(s.dstPort, 2);
    ReadBack(m.sender.seqno.raw, 4);
    ReadBack(AckField(m), 4);
    ReadBack(80, 1);
    ReadBack(Flags(m), 1);
    ReadBack(m.receiver.windowSize, 2);
    ReadBack(s.cksum, 2);
    FieldBytes(s);
    FlagsSeparate(m);
    assert bytes[20..] == m.sender.payload by { PayloadBytes(s); }
  }

  lemma PayloadBytes(s: WireSegment)
    ensures Encode(s)[20..] == s.message.sender.payload
  {
    hide BigEndian;
  }

  /** Where each field of the header ends up. */
  lemma FieldBytes(s: WireSegment)
    ensures
      var m, bytes := s.message, Encode(s);
      && bytes[0..2] == BigEndian(s.srcPort, 2) && bytes[2..4] == BigEndian(s.dstPort, 2)
      && bytes[4..8] == BigEndian(m.sender.seqno.raw, 4) && bytes[8..12] == BigEndian(AckField(m), 4)
      && bytes[12..13] == BigEndian(80, 1) && bytes[13..14] == BigEndian(Flags(m), 1)
      && bytes[14..16] == BigEndian(m.receiver.windowSize, 2) && bytes[16..18] == BigEndian(s.cksum, 2)
  {
    hide BigEndian, Flags, AckField;
  }

  lemma FlagsSeparate(m: TCPMessage)
    ensures Flag(Flags(m), 16) <==> m.receiver.ackno.Some?
    ensures Flag(Flags(m), 4) <==> m.sender.rst || m.receiver.rst
    ensures Flag(Flags(m), 2) <==> m.sender.syn
    ensures Flag(Flags(m), 1) <==> m.sender.fin
  {
  }

  /** The checksum field stands at an even offset, so it adds its own value to the sum. */
  lemma ChecksumAdds(s: WireSegment)
    ensures Sum(Encode(s), false) == Sum(Encode(s.(cksum := 0)), false) + s.cksum
  {
    var front, rest := Front(s), BigEndian(0, 2) + s.message.sender.payload;
    assert Encode(s) == front + (BigEndian(s.cksum, 2) + rest);
    assert Encode(s.(cksum := 0)) == front + (BigEndian(0, 2) + rest);
    SumConcat(front, BigEndian(s.cksum, 2) + rest, false);
    SumConcat(front, BigEndian(0, 2) + rest, false);
    SumConcat(BigEndian(s.cksum, 2), rest, false);
    SumConcat(BigEndian(0, 2), rest, false);
    WordSum(s.cksum);
    WordSum(0);
  }

  lemma WordSum(x: u16)
    ensures Sum(BigEndian(x, 2), false) == x
  {
    var w := BigEndian(x, 2);
    assert BigEndian(x / 256, 1) == BigEndian(x / 256 / 256, 0) + [(x / 256 % 256) as byte];
    assert w[0] as nat == x / 256 && w[1] as nat == x % 256;
    assert w[1..] == [w[1]] && w[1..][1..] == [];
    assert Sum(w[1..], true) == w[1] as nat + Sum([], false);
  }

  /** The round trip: under every pseudo-header sum, a segment that carries its computed checksum is
      decoded to itself, its reset flags merged. */
  lemma RoundTrip(s: WireSegment, pseudo: u32)
    ensures
      var decoded := Decode(Encode(Sealed(s, pseudo)), pseudo);
      && decoded == Some(Merged(Sealed(s, pseudo)))
      && decoded.value.message.sender.rst == (s.message.sender.rst || s.message.receiver.rst)
      && decoded.value.message.receiver.rst == (s.message.sender.rst || s.message.receiver.rst)
  {
    var sealed := Sealed(s, pseudo);
    ComplementAccepts(Uncovered(s, pseudo));
    FieldsOfEncoding(sealed);
    SealedTotal(s, pseudo, sealed.cksum);
    hide Encode, Fields, Complement, Total;
  }

  /** Storing a checksum adds it to the total, if that does not carry out of 32 bits. */
  lemma SealedTotal(s: WireSegment, pseudo: u32, cksum: u16)
    requires Uncovered(s, pseudo) + cksum < TWO32
    ensures Total(Encode(s.(cksum := cksum)), pseudo) == Uncovered(s, pseudo) + cksum
  {
    var stored := s.(cksum := cksum);
    assert stored.(cksum := 0) == s.(cksum := 0);
    ChecksumAdds(stored);
    hide Encode, Sum;
    AddedModulo(pseudo, Sum(Encode(s.(cksum := 0)), false), cksum);
  }

  lemma AddedModulo(a: nat, b: nat, c: nat)
    requires (a + b) % TWO32 + c < TWO32
    ensures (a + (b + c)) % TWO32 == (a + b) % TWO32 + c
  {
  }

  /** Whatever the length, changing one byte of an accepted datagram makes it refused. */
  lemma OneByteErrorIsDetected(bytes: seq<byte>, k: nat, b: byte, pseudo: u32)
    requires k < |bytes| && b != bytes[k]
    requires pseudo + Sum(bytes, false) < TWO32 && pseudo + Sum(bytes[k := b], false) < TWO32
    requires Decode(bytes, pseudo).Some?
    ensures Decode(bytes[k := b], pseudo) == None
  {
    OneByteDifference(bytes, k, b);
    TotalIsExact(bytes, pseudo);
    TotalIsExact(bytes[k := b], pseudo);
    hide Fields, Field, Sum, Accepted, Total;
    AcceptedAreFarApart(Total(bytes, pseudo), Total(bytes[k := b], pseudo));
  }

  /** The datagrams that are refused: those whose 32-bit sum is not a positive multiple of 65535, those
      shorter than a header, and those whose data offset, the upper half of byte 12, is less than five. */
  lemma RefusedExactly(bytes: seq<byte>, pseudo: u32)
    ensures
      var sum := (pseudo + Sum(bytes, false)) % TWO32;
      Decode(bytes, pseudo) == None <==>
        sum == 0 || sum % 0xffff != 0 || |bytes| < 20 || bytes[12] as nat / 16 < 5
  {
    AcceptedExactly(Total(bytes, pseudo));
    if |bytes| >= 20 {
      OneByteField(bytes, 12);
    }
    hide Sum, Fields, Field, Accepted;
  }

  lemma AcceptedExactly(x: nat)
    ensures Accepted(x) <==> x > 0 && x % 0xffff == 0
  {
    if x > 0 && x % 0xffff == 0 {
      MultipleFoldsFull(x);
    } else if Accepted(x) {
      AcceptedIsMultiple(x);
    }
  }

  lemma OneByteField(bytes: seq<byte>, k: nat)
    requires k < |bytes|
    ensures Field(bytes, k, 1) == bytes[k] as nat
  {
    var s := bytes[k..k + 1];
    assert s[..0] == [] && s[0] == bytes[k];
    assert FromBigEndian(s) == FromBigEndian(s[..0]) * 256 + s[0] as nat;
  }

  /** A segment as another sender may encode it, with options between header and payload. */
  function WithOptions(s: WireSegment, options: seq<byte>): seq<byte>
    requires |options| <= 40 && |options| % 4 == 0
  {
    var bytes := Encode(s);
    bytes[..12] + [((5 + |options| / 4) * 16) as byte] + bytes[13..20] + options + bytes[20..]
  }

  /** Options are skipped: the segment is decoded as if there were none. */
  lemma OptionsAreSkipped(s: WireSegment, options: seq<byte>)
    requires |options| <= 40 && |options| % 4 == 0
    ensures Fields(WithOptions(s, options)) == Fields(Encode(s))
  {
    var plain, bytes := Encode(s), WithOptions(s, options);
    FieldsOfEncoding(s);
    OptionsInserted(s, options);
    OneByteField(bytes, 12);
    hide Encode, Flag, FromBigEndian, WithOptions;
    SameSlice(bytes, plain, 0, 12, 0, 2);
    SameSlice(bytes, plain, 0, 12, 2, 4);
    SameSlice(bytes, plain, 0, 12, 4, 8);
    SameSlice(bytes, plain, 0, 12, 8, 12);
    SameSlice(bytes, plain, 13, 20, 13, 14);
    SameSlice(bytes, plain, 13, 20, 14, 16);
    SameSlice(bytes, plain, 13, 20, 16, 18);
  }

  lemma OptionsInserted(s: WireSegment, options: seq<byte>)
    requires |options| <= 40 && |options| % 4 == 0
    ensures
      var plain, bytes := Encode(s), WithOptions(s, options);
      && |bytes| == |plain| + |options| && bytes[12] as nat / 16 * 4 == 20 + |options|
      && bytes[..12] == plain[..12] && bytes[13..20] == plain[13..20] && bytes[20 + |options|..] == plain[20..]
  {
    var words := 5 + |options| / 4;
    assert words * 16 / 16 * 4 == 20 + |options|;
    hide Encode;
  }

  /** Where two datagrams agree, they agree in every part. */
  lemma SameSlice(a: seq<byte>, b: seq<byte>, lo: nat, hi: nat, from: nat, to: nat)
    requires lo <= from <= to <= hi <= |a| && hi <= |b| && a[lo..hi] == b[lo..hi]
    ensures a[from..to] == b[from..to]
  {
    forall k | from <= k < to
      ensures a[k] == b[k]
    {
      assert a[k] == a[lo..hi][k - lo] && b[k] == b[lo..hi][k - lo];
    }
  }

  lemma TotalIsExact(bytes: seq<byte>, pseudo: u32)
    requires pseudo + Sum(bytes, false) < TWO32
    ensures Total(bytes, pseudo) == pseudo + Sum(bytes, false)
  {
    hide Sum;
  }

  /** Two different accepted sums differ by 65535 at least. */
  lemma AcceptedAreFarApart(s: nat, t: nat)
    requires Accepted(s) && s != t && -0xffff < t - s < 0xffff
    ensures !Accepted(t)
  {
    AcceptedIsMultiple(s);
    if t % 0xffff == 0 {
      MultiplesAreFarApart(s, t);
    } else {
      assert Fold(t) % 0xffff != 0;
    }
  }

  /** Changing one byte moves the sum, but by less than 65535. */
  lemma OneByteDifference(bytes: seq<byte>, k: nat, b: byte)
    requires k < |bytes| && b != bytes[k]
    ensures Sum(bytes, false) != Sum(bytes[k := b], false)
    ensures -0xffff < Sum(bytes[k := b], false) - Sum(bytes, false) < 0xffff
  {
    var head, tail := bytes[..k], bytes[k + 1..];
    var odd := false != Odd(|head|);
    assert bytes == head + ([bytes[k]] + tail) && bytes[k := b] == head + ([b] + tail);
    SumConcat(head, [bytes[k]] + tail, false);
    SumConcat(head, [b] + tail, false);
    assert ([bytes[k]] + tail)[1..] == tail && ([b] + tail)[1..] == tail;
    hide Odd;
    assert Sum([b] + tail, odd) == (if odd then b as nat else 256 * b as nat) + Sum(tail, !odd);
  }

  lemma AcceptedIsMultiple(x: nat)
    requires Accepted(x)
    ensures x % 0xffff == 0
  {
    assert Fold(x) == 0xffff;
  }

  lemma MultiplesAreFarApart(x: nat, y: nat)
    requires x % 0xffff == 0 && y % 0xffff == 0 && x != y
    ensures x <= y - 0xffff || y <= x - 0xffff
  {
  }

  /** A segment whose fields are filled in by parsing. */
  class TCPSegment {
    var message: TCPMessage
    var srcPort: u16
    var dstPort: u16
    var cksum: u16

    ghost function Model(): WireSegment
      reads this
    {
      WireSegment(message, srcPort, dstPort, cksum)
    }

    constructor (message: TCPMessage)
      ensures Model() == WireSegment(message, 0, 0, 0)
    {
      this.message := message;
      srcPort, dstPort, cksum := 0, 0, 0;
    }

    method Serialize(serializer: Serializer)
      requires serializer.Valid()
      modifies serializer
      ensures serializer.Valid() && serializer.Contents() == old(serializer.Contents()) + Encode(Model())
    {
      hide BigEndian, Flatten;
      serializer.Integer(srcPort, 2);
      serializer.Integer(dstPort, 2);
      serializer.Integer(message.sender.seqno.raw, 4);
      serializer.Integer(AckField(message), 4);
      serializer.Integer(80, 1);
      serializer.Integer(Flags(message), 1);
      serializer.Integer(message.receiver.windowSize, 2);
      serializer.Integer(cksum, 2);
      serializer.Integer(0, 2);
      serializer.Buffer(message.sender.payload);
    }

    method ComputeChecksum(pseudo: u32)
      modifies this`cksum
      ensures Model() == Sealed(old(Model()), pseudo)
    {
      ghost var zeroed := Model().(cksum := 0);
      cksum := 0;
      var s := new Serializer();
      Serialize(s);
      assert s.Contents() == Encode(zeroed);
      hide Encode, Complement, Sum, Flatten;
      var chunks := s.Finish();
      cksum := Check(chunks, pseudo);
    }

    /** The checksum of all chunks, started from the pseudo-header's sum. */
    static method Check(chunks: seq<seq<byte>>, pseudo: u32) returns (value: u16)
      ensures value == Complement(Total(Flatten(chunks), pseudo))
    {
      hide Complement, Sum, Flatten;
      var check := new InternetChecksum(pseudo);
      check.AddAll(chunks);
      value := check.Value();
    }

    /** Read the next field; `bytes` are those the parser started from, `from` how many it has used. */
    static method ReadField(parser: Parser, width: nat, before: nat, ghost bytes: seq<byte>, ghost from: nat)
      returns (out: nat)
      requires parser.Valid() && width > 0
      requires !parser.error ==> from <= |bytes| && parser.Contents() == bytes[from..]
      modifies parser, parser.input
      ensures parser.Valid()
      ensures parser.error == (old(parser.error) || |bytes| < from + width)
      ensures !parser.error ==> parser.Contents() == bytes[from + width..] && out == Field(bytes, from, width)
      ensures parser.error ==> out == before
    {
      out := parser.Integer(width, before);
      if !parser.error {
        assert bytes[from..][..width] == bytes[from..from + width];
      }
    }

    /** Read ports and numbers, the first 12 bytes of the header. */
    method ReadNumbers(parser: Parser, ghost bytes: seq<byte>) returns (seqno: u32, ackno: u32)
      requires parser.Valid() && (!parser.error ==> parser.Contents() == bytes)
      modifies this`srcPort, this`dstPort, parser, parser.input
      ensures parser.Valid() && parser.error == (old(parser.error) || |bytes| < 12)
      ensures
        !parser.error ==>
          && parser.Contents() == bytes[12..]
          && srcPort == Field(bytes, 0, 2) && dstPort == Field(bytes, 2, 2)
          && seqno == Field(bytes, 4, 4) && ackno == Field(bytes, 8, 4)
    {
      PowersUsed();
      hide Power, FromBigEndian, Field;
      var port := ReadField(parser, 2, srcPort, bytes, 0);
      srcPort := port;
      port := ReadField(parser, 2, dstPort, bytes, 2);
      dstPort := port;
      seqno := ReadField(parser, 4, 0, bytes, 4);
      ackno := ReadField(parser, 4, seqno, bytes, 8);
    }

    /** Read the fixed part of the header; the payload is left alone. */
    method ReadHeader(parser: Parser, ghost bytes: seq<byte>) returns (dataOffset: nat)
      requires parser.Valid() && (!parser.error ==> parser.Contents() == bytes)
      modifies this, parser, parser.input
      ensures parser.Valid() && parser.error == (old(parser.error) || |bytes| < HEADER_LENGTH)
      ensures
        !parser.error ==>
          && parser.Contents() == bytes[HEADER_LENGTH..]
          && Model() == HeaderFields(bytes, old(message.sender.payload))
          && dataOffset == Field(bytes, 12, 1) / 16
    {
      PowersUsed();
      hide Power, FromBigEndian, Field, Flag;
      var seqno, ackno := ReadNumbers(parser, bytes);
      var octet := ReadField(parser, 1, 0, bytes, 12);
      dataOffset := octet / 16;
      octet := ReadField(parser, 1, octet, bytes, 13);
      var sender := SenderMessage(Wrap32(seqno), Flag(octet, 2), message.sender.payload, Flag(octet, 1), Flag(octet, 4));
      var acknowledged := if Flag(octet, 16) then Some(Wrap32(ackno)) else None;
      var window := ReadField(parser, 2, message.receiver.windowSize, bytes, 14);
      message := TCPMessage(sender, ReceiverMessage(acknowledged, window, Flag(octet, 4)));
      var sum := ReadField(parser, 2, cksum, bytes, 16);
      cksum := sum;
      var urgent := ReadField(parser, 2, 0, bytes, 18);
    }

    /** Fill in this segment; the parser's error flag tells whether to use it. */
    method Parse(parser: Parser, pseudo: u32)
      requires parser.Valid()
      modifies this, parser, parser.input
      ensures
        var decoded := Decode(old(parser.Contents()), pseudo);
        && parser.error == (old(parser.error) || decoded.None?)
        && (!parser.error ==> Model() == decoded.value)
    {
      ghost var bytes := parser.Contents();
      hide Sum, Fold, Flatten, Field, Flag, HeaderFields, Fields;
      var views := parser.input.Buffer();
      var value := Check(views, pseudo);
      if value != 0 {
        parser.error := true;
        return;
      }
      var dataOffset := ReadHeader(parser, bytes);
      if dataOffset < HEADER_LENGTH / 4 {
        parser.error := true;
        return;
      }
      ghost var header := Model();
      parser.RemovePrefix(dataOffset * 4 - HEADER_LENGTH);
      var payload := parser.ConcatenateAllRemaining();
      if !parser.error {
        PayloadAdded(bytes, header, payload);
      }
      message := TCPMessage(message.sender.(payload := payload), message.receiver);
    }
  }
}
