// Runs of the fan-out of server/src/ogrt-server.go: what every run conserves, and what a
// goroutine finds in the reused receive buffer when it comes to decode its packet.
module FanOutBuffer {
  import opened Wrappers
  import opened Bytes
  import opened Outputs
  import opened Framing
  import opened FanOut

  // A run that goes on is two runs.
  lemma {:induction false} RunAppend(c: Config, s: State, first: seq<Action>, second: seq<Action>)
    requires Run(c, s, first).Some?
    ensures Run(c, s, first + second) == Run(c, Run(c, s, first).value, second)
    decreases |first|
  {
    hide Enabled, Apply;
    if first == [] {
      assert first + second == second;
    } else {
      assert (first + second)[1..] == first[1..] + second;
      RunAppend(c, Apply(c, s, first[0]), first[1..], second);
    }
  }

  lemma TwoSteps(c: Config, s: State, a: Action, b: Action)
    requires Enabled(c, s, a) && Enabled(c, Apply(c, s, a), b)
    ensures Run(c, s, [a, b]) == Some(Apply(c, Apply(c, s, a), b))
  {
    hide Enabled, Apply;
    assert [a, b][1..] == [b] && [b][1..] == [];
    assert Run(c, Apply(c, Apply(c, s, a), b), []) == Some(Apply(c, Apply(c, s, a), b));
    assert Run(c, Apply(c, s, a), [b]) == Some(Apply(c, Apply(c, s, a), b));
  }

  // ---- Conservation in every run -------------------------------------------------------

  lemma {:induction false} RunConserves(c: Config, s: State, actions: seq<Action>)
    requires Conserved(c, s) && Orderly(c, s) && Run(c, s, actions).Some?
    ensures Conserved(c, Run(c, s, actions).value) && Orderly(c, Run(c, s, actions).value)
    decreases |actions|
  {
    hide Conserved, Orderly, Enabled, Apply;
    if actions != [] {
      StepConserves(c, s, actions[0]);
      RunConserves(c, Apply(c, s, actions[0]), actions[1..]);
    }
  }

  // In every interleaving, at every moment, every decoded message is with respect to every
  // output not yet sent, held by exactly one of its workers, or persisted exactly once.
  lemma NothingLostOrDuplicated(c: Config, files: Files, actions: seq<Action>)
    requires Run(c, Init(c, files), actions).Some?
    ensures var s := Run(c, Init(c, files), actions).value;
            Conserved(c, s) && Orderly(c, s)
  {
    StartsConserved(c, files);
    RunConserves(c, Init(c, files), actions);
  }

  // ---- The receive buffer --------------------------------------------------------------

  // The buffer is what all packets so far have left in it, and every goroutine that has not
  // decoded yet has its own packet's type and range.
  ghost predicate Buffered(c: Config, s: State) {
    && |s.goroutines| == |s.packets|
    && AllSendable(s.packets, c.room)
    && s.buffer == AfterAll(seq(c.room, _ => 0), s.packets)
    && forall m: nat :: IsReceived(s, m) ==>
         s.goroutines[m] == Received(s.packets[m].kind, PREFIX, PREFIX + |s.packets[m].payload|)
  }

  lemma StartsBuffered(c: Config, files: Files)
    ensures Buffered(c, Init(c, files))
  {
  }

  lemma ReceiveKeepsBuffered(c: Config, s: State, a: Action)
    requires Buffered(c, s) && Enabled(c, s, a) && a.Receive?
    ensures Buffered(c, Apply(c, s, a))
  {
    var t, p := Apply(c, s, a), a.packet;
    assert t.packets[..|s.packets|] == s.packets;
    FrameDecodes(p.kind, p.payload, s.buffer[|Frame(p.kind, p.payload)|..]);
    hide Frame, After, Uint32At;
    assert forall m: nat :: m < |s.packets| ==> t.packets[m] == s.packets[m];
    assert forall m: nat :: IsReceived(t, m) && m < |s.packets| ==> IsReceived(s, m);
  }

  lemma StepKeepsBuffered(c: Config, s: State, a: Action)
    requires Buffered(c, s) && Enabled(c, s, a)
    ensures Buffered(c, Apply(c, s, a))
  {
    if a.Receive? {
      ReceiveKeepsBuffered(c, s, a);
    } else {
      var t := Apply(c, s, a);
      assert forall m: nat :: IsReceived(t, m) ==> IsReceived(s, m) && t.goroutines[m] == s.goroutines[m];
    }
  }

  lemma {:induction false} RunKeepsBuffered(c: Config, s: State, actions: seq<Action>)
    requires Buffered(c, s) && Run(c, s, actions).Some?
    ensures Buffered(c, Run(c, s, actions).value)
    decreases |actions|
  {
    hide Buffered, Enabled, Apply;
    if actions != [] {
      StepKeepsBuffered(c, s, actions[0]);
      RunKeepsBuffered(c, Apply(c, s, actions[0]), actions[1..]);
    }
  }

  // The bytes a goroutine unmarshals if it decodes now.
  function SliceNow(s: State, m: nat): seq<byte>
    requires IsReceived(s, m) && s.goroutines[m].from <= s.goroutines[m].to <= |s.buffer|
  {
    s.buffer[s.goroutines[m].from..s.goroutines[m].to]
  }

  lemma BufferedSlice(c: Config, s: State, m: nat)
    requires Buffered(c, s) && IsReceived(s, m)
    ensures s.goroutines[m].from <= s.goroutines[m].to <= |s.buffer|
    ensures SliceNow(s, m) == SliceOf(seq(c.room, _ => 0), s.packets, m)
  {
    assert Sendable(s.packets[m], c.room);
  }

  // In every interleaving, whenever a goroutine decodes: it decodes under its own packet's
  // type; at each position it reads the last packet, from its own on, that reached it; so
  // it reads its own payload exactly if all of these agree with its own, and certainly if
  // nothing was received since.
  lemma DecodeSeesLatest(c: Config, files: Files, actions: seq<Action>, m: nat)
    requires Run(c, Init(c, files), actions).Some?
    requires Enabled(c, Run(c, Init(c, files), actions).value, Decode(m))
    ensures var s := Run(c, Init(c, files), actions).value;
            && m < |s.packets|
            && s.goroutines[m].kind == s.packets[m].kind
            && var own, slice := s.packets[m].payload, SliceNow(s, m);
            && |slice| == |own|
            && (forall i :: 0 <= i < |own| ==>
                  LastReaching(s.packets, i) >= m && slice[i] == s.packets[LastReaching(s.packets, i)].payload[i])
            && (slice == own <==> Agree(s.packets, m))
            && (m == |s.packets| - 1 ==> slice == own)
  {
    hide Apply;
    StartsBuffered(c, files);
    RunKeepsBuffered(c, Init(c, files), actions);
    var s := Run(c, Init(c, files), actions).value;
    BufferedSlice(c, s, m);
    LateSliceIntactIff(seq(c.room, _ => 0), s.packets, m);
    if m == |s.packets| - 1 {
      LatestAgrees(s.packets);
    }
  }

  // The first packet is decoded from an undisturbed buffer.
  lemma FirstMessage(c: Config, files: Files, p: Packet)
    requires Sendable(p, c.room) && Decoded(c, p.kind, p.payload).Some?
    ensures var r := Run(c, Init(c, files), [Receive(p), Decode(0)]);
            var info := Decoded(c, p.kind, p.payload).value;
            && r.Some? && r.value.goroutines == [Sending(info, info, c.outputs.Keys, None)]
            && r.value.hands == Idle(c) && r.value.log == [] && r.value.files == files && !r.value.down
  {
    var s := Init(c, files);
    var s1 := Apply(c, s, Receive(p));
    StartsBuffered(c, files);
    StepKeepsBuffered(c, s, Receive(p));
    BufferedSlice(c, s1, 0);
    assert s1.packets == [p];
    LateSliceIntactIff(seq(c.room, _ => 0), [p], 0);
    LatestAgrees([p]);
    TwoSteps(c, s, Receive(p), Decode(0));
  }

  lemma CanReceive(c: Config, s: State, p: Packet)
    requires Buffered(c, s) && !s.down && Sendable(p, c.room)
    ensures Enabled(c, s, Receive(p))
    ensures var t := Apply(c, s, Receive(p));
            && Buffered(c, t) && !t.down && t.packets == s.packets + [p] && IsReceived(t, |s.goroutines|)
            && forall m: nat :: IsReceived(s, m) ==> IsReceived(t, m)
  {
    StepKeepsBuffered(c, s, Receive(p));
    hide Frame, After, Uint32At;
  }

  lemma TwoReceived(c: Config, s: State, p: Packet, q: Packet)
    requires Buffered(c, s) && !s.down && Sendable(p, c.room) && Sendable(q, c.room)
    ensures var r := Run(c, s, [Receive(p), Receive(q)]);
            && r.Some? && Buffered(c, r.value) && !r.value.down
            && r.value.packets == s.packets + [p] + [q] && IsReceived(r.value, |s.goroutines|)
  {
    var t := Apply(c, s, Receive(p));
    hide Buffered, Apply, Run, Sendable, Enabled;
    CanReceive(c, s, p);
    CanReceive(c, t, q);
    TwoSteps(c, s, Receive(p), Receive(q));
  }

  // A run that goes wrong: of two process messages the later and longer one is received
  // before the first is decoded, and the first goroutine unmarshals the start of the second.
  lemma LateDecode(c: Config, files: Files, p: Packet, q: Packet)
    requires p.kind == q.kind == 12 && |p.payload| <= |q.payload|
    requires Sendable(p, c.room) && Sendable(q, c.room)
    ensures var r := Run(c, Init(c, files), [Receive(p), Receive(q)]);
            && r.Some? && Enabled(c, r.value, Decode(0))
            && SliceNow(r.value, 0) == q.payload[..|p.payload|]
  {
    StartsBuffered(c, files);
    var s := Init(c, files);
    assert !s.down && s.packets == [] && s.goroutines == [];
    hide Init, Run, Buffered, Sendable;
    TwoReceived(c, s, p, q);
    SecondShows(c, Run(c, s, [Receive(p), Receive(q)]).value, p, q);
  }

  lemma SecondShows(c: Config, s: State, p: Packet, q: Packet)
    requires Buffered(c, s) && !s.down && s.packets == [p, q] && IsReceived(s, 0)
    requires |p.payload| <= |q.payload|
    ensures Enabled(c, s, Decode(0)) && SliceNow(s, 0) == q.payload[..|p.payload|]
  {
    BufferedSlice(c, s, 0);
    hide Buffered;
    LateSliceIntactIff(seq(c.room, _ => 0), [p, q], 0);
    hide SliceOf;
  }
}
