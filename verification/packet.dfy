/**
 * `ApplicationPacket` of the consensus application: a 5-byte header (the
 * int size at offsets 0-3, the service byte at offset 4) followed by the
 * payload, whose first four bytes are the consensus term.
 */
module Packets {
  import opened Bytes
  import opened Wrappers
  import opened Faults

  const DATA: Byte := 0
  const REPLY: Byte := 1
  /** `sizeof(char) + sizeof(int)`: the header as it is serialised. */
  const HEADER_SIZE: int := 5

  datatype Packet = Packet(service: Byte, size: Int32, payload: Bytes)

  /** `CalculateSize`: header plus payload, stored into an int. */
  function CalculateSize(payload: Bytes): (r: Int32)
    ensures HEADER_SIZE + |payload| < TWO31 ==> r == HEADER_SIZE + |payload|
  {
    Wrap32(HEADER_SIZE + |payload|)
  }

  /** The default constructor: service NUL, empty payload. */
  function EmptyPacket(): (r: Packet)
    ensures r.size == HEADER_SIZE && r.payload == []
  {
    Packet(0, CalculateSize([]), [])
  }

  /**
   * The DATA constructor: the term, then one random byte per iteration of
   * a loop counting from 0 while below dataSize.  For an integral
   * dataSize that is max(dataSize, 0) bytes; `noise` supplies them.
   */
  function DataPacket(term: Int32, dataSize: int, noise: nat -> Byte): (r: Packet)
    ensures r.service == DATA
    ensures |r.payload| == 4 + (if dataSize > 0 then dataSize else 0)
    ensures r.payload[..4] == EncodeInt32(term)
    ensures r.size == CalculateSize(r.payload)
  {
    var padding := if dataSize > 0 then dataSize else 0;
    var payload := EncodeInt32(term) + seq(padding, i requires 0 <= i < padding => noise(i));
    Packet(DATA, CalculateSize(payload), payload)
  }

  /** The REPLY constructor: the payload is the term alone. */
  function ReplyPacket(term: Int32): (r: Packet)
    ensures r.service == REPLY && r.size == 9
    ensures r.payload == EncodeInt32(term)
  {
    Packet(REPLY, CalculateSize(EncodeInt32(term)), EncodeInt32(term))
  }

  /** `GetTerm`: the first four payload bytes, or -1 when there are fewer. */
  function GetTerm(p: Packet): (r: Int32)
    ensures |p.payload| < 4 ==> r == -1
  {
    if |p.payload| < 4 then -1 else DecodeInt32(p.payload)
  }

  /** `Serialize`: the header fields, then the payload. */
  function Serialize(p: Packet): (r: Bytes)
    ensures |r| == HEADER_SIZE + |p.payload|
    ensures r[HEADER_SIZE..] == p.payload
  {
    EncodeInt32(p.size) + [p.service] + p.payload
  }

  /**
   * The parsing constructor.  It reads the header fields and then
   * size - 5 bytes; a buffer shorter than the header or than the declared
   * size, or a declared size below the header's, is a fault.
   */
  function Parse(serie: Bytes): (r: Result<Packet, Fault>)
    ensures r.Success? ==> HEADER_SIZE + |r.value.payload| == r.value.size <= |serie|
    ensures r.Success? ==> r.value.payload == serie[HEADER_SIZE..r.value.size]
    ensures |serie| < HEADER_SIZE ==> r == Failure(MalformedPacket)
    ensures |serie| >= HEADER_SIZE && DecodeInt32(serie) < HEADER_SIZE ==>
      r == Failure(NegativeLength(DecodeInt32(serie) - HEADER_SIZE))
    ensures |serie| >= HEADER_SIZE && DecodeInt32(serie) > |serie| ==> r == Failure(MalformedPacket)
    ensures r.Success? ==> r.value.size == DecodeInt32(serie) && r.value.service == serie[4]
  {
    if |serie| < HEADER_SIZE then Failure(MalformedPacket)
    else
      var size := DecodeInt32(serie);
      if size < HEADER_SIZE then Failure(NegativeLength(size - HEADER_SIZE))
      else if size > |serie| then Failure(MalformedPacket)
      else Success(Packet(serie[4], size, serie[HEADER_SIZE..size]))
  }

  /** A packet whose size field is its serialised size survives the wire unchanged. */
  lemma ParseSerialize(p: Packet, rest: Bytes)
    requires p.size == HEADER_SIZE + |p.payload|
    ensures Parse(Serialize(p) + rest) == Success(p)
  {
    var s := Serialize(p) + rest;
    assert s == EncodeInt32(p.size) + ([p.service] + p.payload + rest);
    DecodeEncodeInt32(p.size, [p.service] + p.payload + rest);
    assert s[HEADER_SIZE..p.size] == p.payload;
  }

  /** Every constructor sets the size to the serialised size (below 2^31 bytes). */
  lemma ConstructorsSized(term: Int32, dataSize: int, noise: nat -> Byte)
    requires dataSize < TWO31 - 9
    ensures DataPacket(term, dataSize, noise).size == HEADER_SIZE + |DataPacket(term, dataSize, noise).payload|
    ensures ReplyPacket(term).size == HEADER_SIZE + |ReplyPacket(term).payload|
    ensures EmptyPacket().size == HEADER_SIZE + |EmptyPacket().payload|
  {
  }

  /** A DATA packet of any size starts with its term. */
  lemma DataPacketTerm(term: Int32, dataSize: int, noise: nat -> Byte)
    ensures GetTerm(DataPacket(term, dataSize, noise)) == term
  {
    var d := DataPacket(term, dataSize, noise);
    DecodeEncodeInt32(term, d.payload[4..]);
    assert d.payload == EncodeInt32(term) + d.payload[4..];
  }

  /** The term a REPLY or DATA packet carries is what GetTerm reads back, also after the wire. */
  lemma TermRecovered(term: Int32, dataSize: int, noise: nat -> Byte)
    requires dataSize < TWO31 - 9
    ensures GetTerm(ReplyPacket(term)) == term
    ensures GetTerm(DataPacket(term, dataSize, noise)) == term
    ensures Parse(Serialize(ReplyPacket(term))).Success?
    ensures GetTerm(Parse(Serialize(ReplyPacket(term))).value) == term
    ensures Parse(Serialize(DataPacket(term, dataSize, noise))).Success?
    ensures GetTerm(Parse(Serialize(DataPacket(term, dataSize, noise))).value) == term
  {
    var d := DataPacket(term, dataSize, noise);
    DecodeEncodeInt32(term, []);
    assert EncodeInt32(term) + [] == EncodeInt32(term);
    DecodeEncodeInt32(term, d.payload[4..]);
    assert d.payload == EncodeInt32(term) + d.payload[4..];
    ParseSerialize(ReplyPacket(term), []);
    ParseSerialize(d, []);
    assert Serialize(ReplyPacket(term)) + [] == Serialize(ReplyPacket(term));
    assert Serialize(d) + [] == Serialize(d);
  }
}
