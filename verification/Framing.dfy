/** Milter packets on a byte stream (src/milter.rs, read_packet_into and
    write_packet). */
module Framing {
  import opened ByteStrings

  const MAX_PACKET: nat := 1024 * 1024
  const U32_LIMIT: nat := 0x1_0000_0000

  function BigEndian(n: nat): (r: Bytes)
    requires n < U32_LIMIT
    ensures |r| == 4
  {
    [(n / 0x100_0000) as char, (n / 0x1_0000 % 0x100) as char, (n / 0x100 % 0x100) as char, (n % 0x100) as char]
  }

  function FromBigEndian(b: Bytes): nat
    requires |b| == 4
  {
    b[0] as int * 0x100_0000 + b[1] as int * 0x1_0000 + b[2] as int * 0x100 + b[3] as int
  }

  lemma BigEndianRoundTrip(n: nat)
    requires n < U32_LIMIT
    ensures FromBigEndian(BigEndian(n)) == n
  {
    assert n == n / 0x100 * 0x100 + n % 0x100;
    assert n / 0x100 == n / 0x1_0000 * 0x100 + n / 0x100 % 0x100;
    assert n / 0x1_0000 == n / 0x100_0000 * 0x100 + n / 0x1_0000 % 0x100;
  }

  function Frame(packet: Bytes): Bytes
    requires |packet| < U32_LIMIT
  {
    BigEndian(|packet|) + packet
  }

  // ----- what a stream holds -----

  datatype Read =
    | Got(packet: Bytes, rest: Bytes)
    | Ended        // end of input before or within a length
    | BadLength    // zero, or more than MAX_PACKET
    | Truncated    // end of input within a packet

  function NextFrame(stream: Bytes): (r: Read)
    ensures r.Got? ==> Sendable(r.packet) && |r.rest| < |stream|
  {
    if |stream| < 4 then Ended
    else
      var length := FromBigEndian(stream[..4]);
      if length == 0 || length > MAX_PACKET then BadLength
      else if |stream| - 4 < length then Truncated
      else Got(stream[4..4 + length], stream[4 + length..])
  }

  datatype Ending = Clean | Broken(why: Read)

  datatype Packets = Packets(list: seq<Bytes>, ending: Ending)

  /** All packets of a stream, and how it ends. */
  function ReadAll(stream: Bytes): Packets
    decreases |stream|
  {
    match NextFrame(stream)
    case Got(packet, rest) =>
      var more := ReadAll(rest);
      Packets([packet] + more.list, more.ending)
    case Ended => Packets([], Clean)
    case bad => Packets([], Broken(bad))
  }

  predicate Sendable(packet: Bytes) { 1 <= |packet| <= MAX_PACKET }

  function FrameAll(packets: seq<Bytes>): Bytes
    requires forall p :: p in packets ==> Sendable(p)
  {
    if packets == [] then []
    else
      assert Sendable(packets[0]) && forall p :: p in packets[1..] ==> p in packets;
      Frame(packets[0]) + FrameAll(packets[1..])
  }

  lemma NextOfFrame(packet: Bytes, rest: Bytes)
    requires Sendable(packet)
    ensures NextFrame(Frame(packet) + rest) == Got(packet, rest)
  {
    var stream, n := Frame(packet) + rest, |packet|;
    BigEndianRoundTrip(n);
    assert stream[..4] == BigEndian(n);
    assert stream[4..4 + n] == packet && stream[4 + n..] == rest;
  }

  lemma ReadAllStep(stream: Bytes, packet: Bytes, rest: Bytes)
    requires NextFrame(stream) == Got(packet, rest)
    ensures ReadAll(stream) == Packets([packet] + ReadAll(rest).list, ReadAll(rest).ending)
  {
  }

  /** Packets written one after another are read back exactly, and what follows
      them is read as it would be alone: up to three stray bytes are a clean end,
      an unfinished packet is not. */
  lemma {:induction false} FramesRoundTrip(packets: seq<Bytes>, tail: Bytes)
    requires forall p :: p in packets ==> Sendable(p)
    ensures ReadAll(FrameAll(packets) + tail)
         == Packets(packets + ReadAll(tail).list, ReadAll(tail).ending)
  {
    if packets == [] {
      assert FrameAll(packets) + tail == tail;
      assert packets + ReadAll(tail).list == ReadAll(tail).list;
    } else {
      var first, rest := packets[0], packets[1..];
      assert Sendable(first) && forall p :: p in rest ==> p in packets;
      var more := FrameAll(rest) + tail;
      ConcatAssoc(Frame(first), FrameAll(rest), tail);
      NextOfFrame(first, more);
      FramesRoundTrip(rest, tail);
      ReadAllStep(Frame(first) + more, first, more);
      ConcatAssoc([first], rest, ReadAll(tail).list);
      assert [first] + rest == packets;
    }
  }

  lemma LengthPrefix(length: nat, rest: Bytes)
    requires length < U32_LIMIT
    ensures NextFrame(BigEndian(length) + rest) == BadLength <==> length == 0 || length > MAX_PACKET
  {
    BigEndianRoundTrip(length);
    assert (BigEndian(length) + rest)[..4] == BigEndian(length);
  }

  /** After any packets, a length ends the reading as invalid, with those packets
      read and no byte behind it looked at, exactly when it is 0 or above 1 MiB. */
  lemma RejectedLengths(packets: seq<Bytes>, length: nat, rest: Bytes)
    requires (forall p :: p in packets ==> Sendable(p)) && length < U32_LIMIT
    ensures ReadAll(FrameAll(packets) + (BigEndian(length) + rest)) == Packets(packets, Broken(BadLength))
       <==> length == 0 || length > 1_048_576
  {
    var tail := BigEndian(length) + rest;
    FramesRoundTrip(packets, tail);
    LengthPrefix(length, rest);
    assert packets + [] == packets;
    if NextFrame(tail).Got? {
      ReadAllStep(tail, NextFrame(tail).packet, NextFrame(tail).rest);
      assert |packets + ReadAll(tail).list| > |packets|;
    }
  }

  // ----- reading and writing in pieces -----

  /** A connection from which a read takes some of what is left, as it likes. */
  class Stream {
    var rest: Bytes

    constructor (content: Bytes)
      ensures rest == content
    {
      rest := content;
    }

    method Read(max: nat) returns (data: Bytes)
      modifies this
      ensures data + rest == old(rest) && |data| <= max
      ensures data == [] <==> max == 0 || old(rest) == []
    {
      if max == 0 || rest == [] {
        return [];
      }
      var n :| 1 <= n <= |rest| && n <= max;
      data, rest := rest[..n], rest[n..];
    }
  }

  /** The packet buffer kept for a whole connection: `length` bytes of it are in
      use, whatever it held before. */
  class PacketBuffer {
    const data: array<Byte>
    var length: nat

    ghost predicate Valid()
      reads this
    {
      data.Length == MAX_PACKET && length <= MAX_PACKET
    }

    ghost function Contents(): Bytes
      requires Valid()
      reads this, data
    {
      data[..length]
    }

    constructor ()
      ensures Valid() && fresh(data) && Contents() == []
    {
      data := new Byte[MAX_PACKET];
      length := 0;
    }

    method Resize(size: nat)
      requires Valid() && size <= MAX_PACKET
      modifies this, data
      ensures Valid() && length == size
    {
      var i := length;
      while i < size
        invariant Valid() && length == old(length)
      {
        data[i] := '\0';
        i := i + 1;
      }
      length := size;
    }
  }

  /** Fills `buffer[..count]`, or reports the end of the stream. */
  method ReadExact(stream: Stream, buffer: array<Byte>, count: nat) returns (ok: bool)
    requires count <= buffer.Length
    modifies stream, buffer
    ensures ok <==> |old(stream.rest)| >= count
    ensures ok ==> buffer[..count] == old(stream.rest)[..count] && stream.rest == old(stream.rest)[count..]
  {
    var filled := 0;
    while filled < count
      invariant filled <= count && filled <= |old(stream.rest)|
      invariant stream.rest == old(stream.rest)[filled..]
      invariant buffer[..filled] == old(stream.rest)[..filled]
      decreases count - filled
    {
      var data := stream.Read(count - filled);
      if data == [] {
        return false;
      }
      forall i | 0 <= i < |data| {
        buffer[filled + i] := data[i];
      }
      assert old(stream.rest)[filled..] == data + stream.rest;
      assert old(stream.rest)[..filled + |data|] == old(stream.rest)[..filled] + data;
      assert buffer[..filled + |data|] == buffer[..filled] + data;
      filled := filled + |data|;
    }
    return true;
  }

  datatype ReadOutcome = Ready | EndOfStream | InvalidLength | UnexpectedEof

  function OutcomeOf(read: Read): ReadOutcome {
    match read
    case Got(_, _) => Ready
    case Ended => EndOfStream
    case BadLength => InvalidLength
    case Truncated => UnexpectedEof
  }

  /** However the bytes arrive, the packet read is the next frame of the stream. */
  method ReadPacketInto(stream: Stream, packet: PacketBuffer) returns (outcome: ReadOutcome)
    requires packet.Valid()
    modifies stream, packet, packet.data
    ensures packet.Valid()
    ensures outcome == OutcomeOf(NextFrame(old(stream.rest)))
    ensures outcome == Ready ==>
              Got(packet.Contents(), stream.rest) == NextFrame(old(stream.rest))
  {
    var prefix := new Byte[4];
    var ok := ReadExact(stream, prefix, 4);
    if !ok {
      return EndOfStream;
    }
    assert prefix[..4] == prefix[..];
    var length := FromBigEndian(prefix[..]);
    if length == 0 || length > MAX_PACKET {
      return InvalidLength;
    }
    packet.Resize(length);
    ok := ReadExact(stream, packet.data, length);
    return if ok then Ready else UnexpectedEof;
  }

  /** Everything is written, however little each write takes. */
  class Sink {
    var written: Bytes

    constructor ()
      ensures written == []
    {
      written := [];
    }

    method Write(data: Bytes) returns (n: nat)
      requires data != []
      modifies this
      ensures 1 <= n <= |data| && written == old(written) + data[..n]
    {
      n :| 1 <= n <= |data|;
      written := written + data[..n];
    }

    method WriteAll(data: Bytes)
      modifies this
      ensures written == old(written) + data
    {
      var done := 0;
      while done < |data|
        invariant done <= |data| && written == old(written) + data[..done]
      {
        var n := Write(data[done..]);
        assert data[..done + n] == data[..done] + data[done..][..n];
        done := done + n;
      }
    }
  }

  /** One frame, or nothing when its length does not fit in 32 bits. */
  method WritePacket(sink: Sink, command: Byte, payload: Bytes) returns (ok: bool)
    modifies sink
    ensures ok <==> 1 + |payload| < U32_LIMIT
    ensures sink.written == old(sink.written) + if ok then Frame([command] + payload) else []
  {
    var length := 1 + |payload|;
    if length >= U32_LIMIT {
      return false;
    }
    var packet := BigEndian(length);
    packet := packet + [command];
    packet := packet + payload;
    assert packet == Frame([command] + payload);
    sink.WriteAll(packet);
    return true;
  }
}
