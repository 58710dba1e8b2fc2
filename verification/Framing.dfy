// The frame around a message: written by ogrt_prepare_sendbuffer in
// client/src/ogrt-main.c, read by the receive loop of server/src/ogrt-server.go from a
// buffer that is reused for every packet.
module Framing {
  import opened Bytes

  const PREFIX := 8      // type and payload length, four bytes each
  const INT32_MIN := -0x8000_0000
  const INT32_END := 0x8000_0000
  const UINT32_END := 0x1_0000_0000

  predicate IsInt32(v: int) {
    INT32_MIN <= v < INT32_END
  }

  // htonl of an int, and the Go conversion int32(uint32) that undoes it.
  function ToUint32(v: int): (u: int)
    requires IsInt32(v)
    ensures 0 <= u < UINT32_END
  {
    if v < 0 then v + UINT32_END else v
  }

  function ToInt32(u: int): (v: int)
    requires 0 <= u < UINT32_END
    ensures IsInt32(v)
  {
    if u < INT32_END then u else u - UINT32_END
  }

  function BigEndian(u: int): (b: seq<byte>)
    requires 0 <= u < UINT32_END
    ensures |b| == 4
  {
    [u / 0x100 / 0x100 / 0x100, u / 0x100 / 0x100 % 0x100, u / 0x100 % 0x100, u % 0x100]
  }

  function Uint32At(b: seq<byte>, o: nat): (u: int)
    requires o + 4 <= |b|
    ensures 0 <= u < UINT32_END
  {
    0x100_0000 * b[o] as int + 0x1_0000 * b[o + 1] as int + 0x100 * b[o + 2] as int + b[o + 3] as int
  }

  function Frame(kind: int, payload: seq<byte>): (d: seq<byte>)
    requires IsInt32(kind) && PREFIX + |payload| < INT32_END
    ensures |d| == PREFIX + |payload|
  {
    BigEndian(ToUint32(kind)) + BigEndian(|payload|) + payload
  }

  lemma BigEndianRoundTrip(u: int, before: seq<byte>, after: seq<byte>)
    requires 0 <= u < UINT32_END
    ensures Uint32At(before + BigEndian(u) + after, |before|) == u
  {
    var b, o := before + BigEndian(u) + after, |before|;
    assert b[o] == u / 0x100 / 0x100 / 0x100 && b[o + 1] == u / 0x100 / 0x100 % 0x100;
    assert b[o + 2] == u / 0x100 % 0x100 && b[o + 3] == u % 0x100;
  }

  // A frame at the start of a buffer decodes to its type and payload, whatever follows it.
  lemma FrameDecodes(kind: int, payload: seq<byte>, stale: seq<byte>)
    requires IsInt32(kind) && PREFIX + |payload| < INT32_END
    ensures var b := Frame(kind, payload) + stale;
            && ToInt32(Uint32At(b, 0)) == kind
            && Uint32At(b, 4) == |payload|
            && b[PREFIX..PREFIX + |payload|] == payload
  {
    var x, y := BigEndian(ToUint32(kind)), BigEndian(|payload|);
    var b := Frame(kind, payload) + stale;
    hide BigEndian, Uint32At;
    assert b == [] + x + (y + payload + stale);
    BigEndianRoundTrip(ToUint32(kind), [], y + payload + stale);
    assert b == x + y + (payload + stale);
    BigEndianRoundTrip(|payload|, x, payload + stale);
  }

  // ---- The client ----------------------------------------------------------------------

  method Memcpy(dst: array<byte>, at: nat, src: seq<byte>)
    requires at + |src| <= dst.Length
    modifies dst
    ensures dst[..] == old(dst[..at]) + src + old(dst[at + |src|..])
  {
    for i := 0 to |src|
      invariant dst[..] == old(dst[..at]) + src[..i] + old(dst[at + i..])
    {
      dst[at + i] := src[i];
      assert src[..i + 1] == src[..i] + [src[i]];
    }
    assert src[..|src|] == src;
  }

  // Allocates a buffer for a payload and fills in the prefix; payload is the offset at
  // which the caller packs its message.
  method PrepareSendbuffer(kind: int, payloadLength: int) returns (buffer: array<byte>, payload: nat, total: int)
    requires IsInt32(kind) && 0 <= payloadLength && PREFIX + payloadLength < INT32_END
    ensures fresh(buffer) && buffer.Length == total == 8 + payloadLength && payload == 8
    ensures buffer[..PREFIX] == BigEndian(ToUint32(kind)) + BigEndian(payloadLength)
    ensures 0x100_0000 * buffer[0] as int + 0x1_0000 * buffer[1] as int + 0x100 * buffer[2] as int
            + buffer[3] as int == (if kind < 0 then kind + 0x1_0000_0000 else kind)
    ensures 0x100_0000 * buffer[4] as int + 0x1_0000 * buffer[5] as int + 0x100 * buffer[6] as int
            + buffer[7] as int == payloadLength
  {
    var kindBytes := BigEndian(ToUint32(kind));
    var lengthBytes := BigEndian(payloadLength);
    total := payloadLength + |kindBytes| + |lengthBytes|;
    buffer := new byte[total];
    payload := |kindBytes| + |lengthBytes|;
    Memcpy(buffer, 0, kindBytes);
    Memcpy(buffer, 4, lengthBytes);
    assert forall k :: 0 <= k < 8 ==> buffer[k] == buffer[..8][k];
  }

  // Prepares a buffer, packs a message of known length into it, and sends all of it.
  method Send(kind: int, message: seq<byte>) returns (datagram: seq<byte>)
    requires IsInt32(kind) && PREFIX + |message| < INT32_END
    ensures datagram == Frame(kind, message)
  {
    var buffer, payload, total := PrepareSendbuffer(kind, |message|);
    Memcpy(buffer, payload, message);
    datagram := buffer[..total];
  }

  // ---- The server ----------------------------------------------------------------------

  // The receive buffer after a datagram that fits into it.
  function After(buffer: seq<byte>, datagram: seq<byte>): (b: seq<byte>)
    requires |datagram| <= |buffer|
    ensures |b| == |buffer|
  {
    datagram + buffer[|datagram|..]
  }

  // One message as the loop sees it: its type and the range of the buffer it slices.
  method DecodeHeader(buffer: array<byte>) returns (kind: int, from: nat, to: int)
    requires PREFIX <= buffer.Length
    ensures kind == ToInt32(Uint32At(buffer[..], 0))
    ensures from == PREFIX && to == PREFIX + Uint32At(buffer[..], 4)
    ensures var u := 0x100_0000 * buffer[0] as int + 0x1_0000 * buffer[1] as int
                     + 0x100 * buffer[2] as int + buffer[3] as int;
            kind == if u < 0x8000_0000 then u else u - 0x1_0000_0000
    ensures from == 8
    ensures to == 8 + 0x100_0000 * buffer[4] as int + 0x1_0000 * buffer[5] as int
                  + 0x100 * buffer[6] as int + buffer[7] as int
  {
    kind := ToInt32(Uint32At(buffer[0..4], 0));
    var length := Uint32At(buffer[4..8], 0);
    from, to := 8, length + 8;
  }

  datatype Packet = Packet(kind: int, payload: seq<byte>)

  predicate Sendable(p: Packet, room: nat) {
    IsInt32(p.kind) && PREFIX + |p.payload| < INT32_END && PREFIX + |p.payload| <= room
  }

  // One packet: sent, received into the buffer and decoded from it at once.
  method ServeOne(p: Packet, buffer: array<byte>) returns (decoded: Packet)
    requires Sendable(p, buffer.Length)
    modifies buffer
    ensures decoded == p
    ensures buffer[..] == After(old(buffer[..]), Frame(p.kind, p.payload))
  {
    hide BigEndian, Uint32At, Frame;
    var datagram := Send(p.kind, p.payload);
    ghost var stale := buffer[|datagram|..];
    Memcpy(buffer, 0, datagram);
    ghost var b := buffer[..];
    assert b == Frame(p.kind, p.payload) + stale;
    FrameDecodes(p.kind, p.payload, stale);
    var kind, from, to := DecodeHeader(buffer);
    assert buffer[from..to] == b[from..to];
    decoded := Packet(kind, buffer[from..to]);
  }

  // Packets that are framed, received into the same buffer and decoded each before the next
  // receive come out as they went in, whatever earlier and longer packets left behind.
  method Serve(packets: seq<Packet>, buffer: array<byte>) returns (decoded: seq<Packet>)
    requires forall i :: 0 <= i < |packets| ==> Sendable(packets[i], buffer.Length)
    modifies buffer
    ensures decoded == packets
  {
    decoded := [];
    for i := 0 to |packets|
      invariant decoded == packets[..i]
    {
      var p := ServeOne(packets[i], buffer);
      decoded := decoded + [p];
    }
  }

  // ---- Looking at the buffer later -----------------------------------------------------

  predicate AllSendable(packets: seq<Packet>, room: nat) {
    forall k :: 0 <= k < |packets| ==> Sendable(packets[k], room)
  }

  // The receive buffer after all these packets.
  function AfterAll(buffer: seq<byte>, packets: seq<Packet>): (b: seq<byte>)
    requires AllSendable(packets, |buffer|)
    ensures |b| == |buffer|
  {
    if packets == [] then buffer
    else
      var p := packets[|packets| - 1];
      After(AfterAll(buffer, packets[..|packets| - 1]), Frame(p.kind, p.payload))
  }

  // The last packet whose payload reaches position i, or -1.
  function LastReaching(packets: seq<Packet>, i: nat): (k: int)
    ensures -1 <= k < |packets|
    ensures k >= 0 ==> i < |packets[k].payload|
    ensures forall j :: k < j < |packets| ==> |packets[j].payload| <= i
  {
    if packets == [] then -1
    else if i < |packets[|packets| - 1].payload| then |packets| - 1
    else LastReaching(packets[..|packets| - 1], i)
  }

  // Every position of the buffer shows the last payload that reached it.
  lemma {:induction false} PositionShows(buffer: seq<byte>, packets: seq<Packet>, i: nat)
    requires AllSendable(packets, |buffer|) && LastReaching(packets, i) >= 0
    ensures PREFIX + i < |buffer|
    ensures AfterAll(buffer, packets)[PREFIX + i] == packets[LastReaching(packets, i)].payload[i]
    decreases |packets|
  {
    var p, before := packets[|packets| - 1], packets[..|packets| - 1];
    if i >= |p.payload| {
      assert forall k :: 0 <= k < |before| ==> before[k] == packets[k];
      PositionShows(buffer, before, i);
    }
  }

  // What the slice taken for packet m shows after packets have been received, be it the
  // last of them or long superseded.
  function SliceOf(buffer: seq<byte>, packets: seq<Packet>, m: nat): (s: seq<byte>)
    requires AllSendable(packets, |buffer|) && m < |packets|
    ensures |s| == |packets[m].payload|
  {
    assert Sendable(packets[m], |buffer|);
    AfterAll(buffer, packets)[PREFIX..PREFIX + |packets[m].payload|]
  }

  // At each position of packet m the last packet that reached it agrees with packet m.
  predicate Agree(packets: seq<Packet>, m: nat)
    requires m < |packets|
  {
    var own := packets[m].payload;
    forall i {:trigger LastReaching(packets, i)} :: 0 <= i < |own| ==>
      LastReaching(packets, i) >= 0 && packets[LastReaching(packets, i)].payload[i] == own[i]
  }

  // At each position the slice shows the last packet, from its own on, that reached it; so
  // it is intact exactly if each of these packets agrees with its own there.
  lemma LateSliceIntactIff(buffer: seq<byte>, packets: seq<Packet>, m: nat)
    requires AllSendable(packets, |buffer|) && m < |packets|
    ensures var own, slice := packets[m].payload, SliceOf(buffer, packets, m);
            && (forall i :: 0 <= i < |own| ==>
                  LastReaching(packets, i) >= m && slice[i] == packets[LastReaching(packets, i)].payload[i])
            && (slice == own <==> Agree(packets, m))
  {
    var own, slice := packets[m].payload, SliceOf(buffer, packets, m);
    forall i | 0 <= i < |own|
      ensures LastReaching(packets, i) >= m && slice[i] == packets[LastReaching(packets, i)].payload[i]
    {
      PositionShows(buffer, packets, i);
      assert slice[i] == AfterAll(buffer, packets)[PREFIX + i];
    }
  }

  // In particular nothing can be amiss with the packet received last.
  lemma LatestAgrees(packets: seq<Packet>)
    requires packets != []
    ensures Agree(packets, |packets| - 1)
  {
  }

  // Agreeing with the next packet is neither enough nor needed.
  lemma LateSliceExamples(buffer: seq<byte>)
    requires |buffer| == PREFIX + 1
    ensures var p, q := Packet(12, [1]), Packet(12, [2]);
            && SliceOf(buffer, [p, p, q], 0) == [2]
            && SliceOf(buffer, [p, q, p], 0) == [1]
  {
    var p, q := Packet(12, [1]), Packet(12, [2]);
    LateSliceIntactIff(buffer, [p, p, q], 0);
    LateSliceIntactIff(buffer, [p, q, p], 0);
  }
}
