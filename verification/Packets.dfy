/** Splitting payloads into packets and putting them back together (`mysql/conn.go`). */
module Packets {
  import opened Options
  import opened Decimal

  const MAX_PACKET_SIZE: nat := 0xff_ffff

  /** The packet header: the length in three bytes, low byte first, and the sequence number. */
  function Header(length: nat, sequence: Byte): (h: seq<Byte>)
    requires length <= MAX_PACKET_SIZE
    ensures |h| == 4 && h[3] == sequence && HeaderLength(h) == length
  {
    ThreeBytes(length);
    [length % 256, length / 256 % 256, length / 65536, sequence]
  }

  lemma ThreeBytes(length: nat)
    requires length <= MAX_PACKET_SIZE
    ensures length % 256 + 256 * (length / 256 % 256) + 65536 * (length / 65536) == length && length / 65536 < 256
  {
    var q := length / 256;
    assert length == 256 * q + length % 256;
    assert q == 256 * (q / 256) + q % 256;
    assert length / 65536 == q / 256;
  }

  function HeaderLength(h: seq<Byte>): (n: nat)
    requires |h| == 4
    ensures n <= MAX_PACKET_SIZE
  {
    var low: int, middle: int, high: int := h[0], h[1], h[2];
    low + 256 * middle + 65536 * high
  }

  function Next(sequence: Byte): Byte { (sequence + 1) % 256 }

  // ---------------------------------------------------------------- the wire format

  /** The bytes of a payload on the wire: full packets, and then one that is not full, possibly empty. */
  function Framed(sequence: Byte, data: seq<Byte>): seq<Byte>
    decreases |data|
  {
    if |data| < MAX_PACKET_SIZE then Header(|data|, sequence) + data
    else Header(MAX_PACKET_SIZE, sequence) + data[..MAX_PACKET_SIZE] + Framed(Next(sequence), data[MAX_PACKET_SIZE..])
  }

  function SequenceAfter(sequence: Byte, length: nat): Byte
    decreases length
  {
    if length < MAX_PACKET_SIZE then Next(sequence) else SequenceAfter(Next(sequence), length - MAX_PACKET_SIZE)
  }

  /** The counter moves once per packet, modulo 256. */
  lemma {:induction false} SequenceCounts(sequence: Byte, length: nat)
    ensures SequenceAfter(sequence, length) == (sequence + length / MAX_PACKET_SIZE + 1) % 256
    decreases length
  {
    if length >= MAX_PACKET_SIZE {
      SequenceCounts(Next(sequence), length - MAX_PACKET_SIZE);
      assert (length - MAX_PACKET_SIZE) / MAX_PACKET_SIZE == length / MAX_PACKET_SIZE - 1;
      ModularSum(sequence + 1, length / MAX_PACKET_SIZE);
    }
  }

  lemma ModularSum(x: int, y: int)
    ensures (x % 256 + y) % 256 == (x + y) % 256
  {
  }

  /** What was read, the bytes left, and the sequence number expected next. */
  datatype Read = Read(data: seq<Byte>, rest: seq<Byte>, sequence: Byte)

  /** One packet off the stream; a wrong sequence number or too few bytes is an error. */
  function TakeOne(sequence: Byte, input: seq<Byte>): (r: Option<Read>)
    ensures r.Some? ==> |r.value.rest| < |input|
  {
    if |input| < 4 || input[3] != sequence then None
    else
      var length := HeaderLength(input[..4]);
      if |input| < 4 + length then None
      else Some(Read(input[4..4 + length], input[4 + length..], Next(sequence)))
  }

  /** One payload off the stream: packets up to the first that is not full. */
  function Take(sequence: Byte, input: seq<Byte>): Option<Read>
    decreases |input|
  {
    var one := TakeOne(sequence, input);
    if one.None? || |one.value.data| < MAX_PACKET_SIZE then one
    else
      var more := Take(one.value.sequence, one.value.rest);
      if more.None? then None else Some(more.value.(data := one.value.data + more.value.data))
  }

  lemma TakeOneFramed(sequence: Byte, data: seq<Byte>, tail: seq<Byte>)
    requires |data| <= MAX_PACKET_SIZE
    ensures TakeOne(sequence, Header(|data|, sequence) + data + tail) == Some(Read(data, tail, Next(sequence)))
  {
    var h := Header(|data|, sequence);
    var input := h + data + tail;
    assert input[..4] == h && input[4..4 + |data|] == data && input[4 + |data|..] == tail;
  }

  /** Reading back a written payload returns it, consumes exactly its bytes, and leaves the reader expecting the
      writer's next sequence number. */
  lemma {:induction false} TakeFramed(sequence: Byte, data: seq<Byte>, tail: seq<Byte>)
    ensures Take(sequence, Framed(sequence, data) + tail) == Some(Read(data, tail, SequenceAfter(sequence, |data|)))
    decreases |data|
  {
    if |data| < MAX_PACKET_SIZE {
      TakeOneFramed(sequence, data, tail);
    } else {
      var first, more := data[..MAX_PACKET_SIZE], data[MAX_PACKET_SIZE..];
      var rest := Framed(Next(sequence), more) + tail;
      assert Framed(sequence, data) + tail == Header(MAX_PACKET_SIZE, sequence) + first + rest;
      TakeOneFramed(sequence, first, rest);
      TakeFramed(Next(sequence), more, tail);
      assert first + more == data;
    }
  }

  /** The wire bytes of several payloads written one after the other. */
  function FramedAll(sequence: Byte, payloads: seq<seq<Byte>>): seq<Byte>
    decreases |payloads|
  {
    if payloads == [] then []
    else Framed(sequence, payloads[0]) + FramedAll(SequenceAfter(sequence, |payloads[0]|), payloads[1..])
  }

  /** Reads `n` payloads. */
  function TakeAll(sequence: Byte, input: seq<Byte>, n: nat): Option<seq<seq<Byte>>>
    decreases n
  {
    if n == 0 then if input == [] then Some([]) else None
    else
      var first := Take(sequence, input);
      if first.None? then None
      else
        var more := TakeAll(first.value.sequence, first.value.rest, n - 1);
        if more.None? then None else Some([first.value.data] + more.value)
  }

  /** A whole conversation comes back payload by payload, with nothing left on the stream. */
  lemma {:induction false} ConversationRoundTrip(sequence: Byte, payloads: seq<seq<Byte>>)
    ensures TakeAll(sequence, FramedAll(sequence, payloads), |payloads|) == Some(payloads)
    decreases |payloads|
  {
    if payloads != [] {
      var next := SequenceAfter(sequence, |payloads[0]|);
      TakeFramed(sequence, payloads[0], FramedAll(next, payloads[1..]));
      ConversationRoundTrip(next, payloads[1..]);
      assert [payloads[0]] + payloads[1..] == payloads;
    }
  }

  lemma Regroup(a: seq<Byte>, b: seq<Byte>, c: seq<Byte>, d: seq<Byte>)
    ensures a + (b + c + d) == a + b + c + d && (d == [] ==> b + c + d == b + c)
  {
  }

  // ---------------------------------------------------------------- the connection

  datatype EphemeralPolicy = Unused | BeingRead

  class Conn {
    /** Bytes written and bytes still to be read. */
    var output: seq<Byte>
    var input: seq<Byte>
    var sequence: Byte
    var policy: EphemeralPolicy

    /** The reader's outcome is the payload and state that `Take` gives, or an error exactly when it gives none. */
    ghost predicate Follows(spec: Option<Read>, r: Option<seq<Byte>>)
      reads this
    {
      if spec.None? then r.None?
      else r == Some(spec.value.data) && input == spec.value.rest && sequence == spec.value.sequence
    }

    /** Writing the first `n` bytes of what remains as one packet. */
    static lemma WriteStep(output: seq<Byte>, sequence: Byte, left: seq<Byte>, n: nat)
      requires n == if |left| > MAX_PACKET_SIZE then MAX_PACKET_SIZE else |left|
      ensures output + Framed(sequence, left) == output + Header(n, sequence) + left[..n] +
              if n < MAX_PACKET_SIZE then [] else Framed(Next(sequence), left[n..])
    {
      var h, chunk := Header(n, sequence), left[..n];
      if n < MAX_PACKET_SIZE {
        assert chunk == left;
        Regroup(output, h, chunk, []);
      } else {
        Regroup(output, h, chunk, Framed(Next(sequence), left[n..]));
      }
    }

    /** WritePacket. */
    method WritePacket(data: seq<Byte>)
      modifies `output, `sequence
      ensures output == old(output) + Framed(old(sequence), data)
      ensures sequence == SequenceAfter(old(sequence), |data|)
    {
      var index: nat, length: nat := 0, |data|;
      ghost var start, first := output, sequence;
      while true
        invariant index + length == |data|
        invariant start + Framed(first, data) == output + Framed(sequence, data[index..])
        invariant SequenceAfter(first, |data|) == SequenceAfter(sequence, length)
        decreases length
      {
        var packetLength := if length > MAX_PACKET_SIZE then MAX_PACKET_SIZE else length;
        WriteStep(output, sequence, data[index..], packetLength);
        assert data[index..][packetLength..] == data[index + packetLength..];
        assert data[index..][..packetLength] == data[index..index + packetLength];
        output := output + Header(packetLength, sequence);
        output := output + data[index..index + packetLength];
        sequence := Next(sequence);
        length := length - packetLength;
        if length == 0 {
          if packetLength == MAX_PACKET_SIZE {
            output := output + Header(0, sequence);
            sequence := Next(sequence);
          }
          return;
        }
        index := index + packetLength;
      }
    }

    /** readHeaderFrom. */
    method ReadHeaderFrom() returns (r: Option<nat>)
      modifies `input, `sequence
      ensures r.Some? <==> |old(input)| >= 4 && old(input)[3] == old(sequence)
      ensures r.Some? ==> r.value == HeaderLength(old(input)[..4]) && input == old(input)[4..]
      ensures r.Some? ==> sequence == Next(old(sequence))
    {
      if |input| < 4 { return None; }
      var header := input[..4];
      input := input[4..];
      if header[3] != sequence { return None; }
      sequence := Next(sequence);
      return Some(HeaderLength(header));
    }

    /** readOnePacket. */
    method ReadOnePacket() returns (r: Option<seq<Byte>>)
      modifies `input, `sequence
      ensures Follows(TakeOne(old(sequence), old(input)), r)
    {
      var length := ReadHeaderFrom();
      if length.None? { return None; }
      if length.value == 0 {
        assert old(input)[4..4] == [];
        return Some([]);
      }
      if |input| < length.value { return None; }
      assert old(input)[4..4 + length.value] == input[..length.value];
      r := Some(input[..length.value]);
      input := input[length.value..];
    }

    /** The loop that readPacket and ReadEphemeralPacket share, after a first full packet. */
    method ReadMore(first: seq<Byte>) returns (r: Option<seq<Byte>>)
      modifies `input, `sequence
      ensures var spec := Take(old(sequence), old(input));
              Follows(if spec.None? then None else Some(spec.value.(data := first + spec.value.data)), r)
    {
      var data := first;
      ghost var spec := Take(sequence, input);
      while true
        invariant var rest := Take(sequence, input);
          if spec.None? then rest.None?
          else rest.Some? && first + spec.value.data == data + rest.value.data
               && rest.value.rest == spec.value.rest && rest.value.sequence == spec.value.sequence
        decreases |input|
      {
        var next := ReadOnePacket();
        if next.None? { return None; }
        if |next.value| == 0 {
          assert data + next.value == data;
          break;
        }
        data := data + next.value;
        if |next.value| < MAX_PACKET_SIZE { break; }
      }
      return Some(data);
    }

    /** readPacket. */
    method ReadPacket() returns (r: Option<seq<Byte>>)
      modifies `input, `sequence
      ensures Follows(Take(old(sequence), old(input)), r)
    {
      r := ReadOnePacket();
      if r.None? || |r.value| < MAX_PACKET_SIZE { return; }
      r := ReadMore(r.value);
    }

    /** ReadEphemeralPacket: the pooled short packet, or the same reassembly. */
    method ReadEphemeralPacket() returns (r: Option<seq<Byte>>)
      requires policy == Unused
      modifies `input, `sequence, `policy
      ensures Follows(Take(old(sequence), old(input)), r)
      ensures r.Some? ==> policy == BeingRead
    {
      var length := ReadHeaderFrom();
      if length.None? { return None; }
      policy := BeingRead;
      if length.value == 0 {
        assert old(input)[4..4] == [];
        return Some([]);
      }
      if |input| < length.value { return None; }
      assert old(input)[4..4 + length.value] == input[..length.value];
      var data := input[..length.value];
      input := input[length.value..];
      if length.value < MAX_PACKET_SIZE { return Some(data); }
      r := ReadMore(data);
    }
  }
}
