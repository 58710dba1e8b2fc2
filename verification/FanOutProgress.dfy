// Progress of the fan-out of server/src/ogrt-server.go: what has been received reaches every
// output exactly if every output has a worker and none ever panics.
module FanOutProgress {
  import opened Outputs
  import opened Framing
  import opened FanOut
  import opened FanOutBuffer
  import opened FanOutPanic

  // ---- A measure -----------------------------------------------------------------------

  function Weight(c: Config, g: Goroutine): nat {
    match g
    case Received(_, _, _) => 1 + 3 * |c.outputs.Keys|
    case Gone => 0
    case Sending(_, _, pending, at) => 3 * |pending| + if at.Some? then 2 else 0
  }

  function Total(c: Config, gs: seq<Goroutine>): nat {
    if gs == [] then 0 else Weight(c, gs[0]) + Total(c, gs[1..])
  }

  function Busy(s: State): set<Worker> {
    set w | w in s.hands && s.hands[w].Some?
  }

  // Steps still to be taken for what has been received, or to the panic: at most this many.
  function Measure(c: Config, s: State): nat {
    Total(c, s.goroutines) + |Busy(s)| + if s.down then 0 else 1
  }

  lemma {:induction false} TotalUpdate(c: Config, gs: seq<Goroutine>, m: nat, g: Goroutine)
    requires m < |gs|
    ensures Total(c, gs[m := g]) == Total(c, gs) - Weight(c, gs[m]) + Weight(c, g)
    decreases |gs|
  {
    if m == 0 {
      assert gs[m := g][1..] == gs[1..];
    } else {
      assert gs[m := g][1..] == gs[1..][m - 1 := g];
      TotalUpdate(c, gs[1..], m - 1, g);
    }
  }

  predicate Quiet(a: Action) {
    !a.Receive?
  }

  lemma DecodeOrChooseDecreases(c: Config, s: State, a: Action)
    requires Enabled(c, s, a) && (a.Decode? || a.Choose?)
    ensures Measure(c, Apply(c, s, a)) < Measure(c, s)
  {
    var t := Apply(c, s, a);
    TotalUpdate(c, s.goroutines, a.msg, t.goroutines[a.msg]);
    hide Total;
    assert t.hands == s.hands;
  }

  lemma HandoffDecreases(c: Config, s: State, a: Action)
    requires Enabled(c, s, a) && a.Handoff?
    ensures Measure(c, Apply(c, s, a)) < Measure(c, s)
  {
    var t := Apply(c, s, a);
    TotalUpdate(c, s.goroutines, a.msg, t.goroutines[a.msg]);
    hide Total;
    assert Busy(t) == Busy(s) + {a.worker};
  }

  lemma PersistDecreases(c: Config, s: State, a: Action)
    requires Enabled(c, s, a) && a.Persist?
    ensures Measure(c, Apply(c, s, a)) < Measure(c, s)
  {
    hide FilesAfter, InfoAfter;
    var t := Apply(c, s, a);
    var m := s.hands[a.worker].value;
    TotalUpdate(c, s.goroutines, m, t.goroutines[m]);
    hide Total;
    assert a.worker in Busy(s) && Busy(t) == Busy(s) - {a.worker};
  }

  lemma PanicDecreases(c: Config, s: State, a: Action)
    requires Enabled(c, s, a) && a.Panic?
    ensures Measure(c, Apply(c, s, a)) < Measure(c, s)
  {
    hide FilesAfter, InfoAfter, Total;
    assert Apply(c, s, a).hands == s.hands;
  }

  // Every step other than a receive brings the measure down.
  lemma StepDecreases(c: Config, s: State, a: Action)
    requires Enabled(c, s, a) && Quiet(a)
    ensures Measure(c, Apply(c, s, a)) < Measure(c, s)
  {
    hide Apply, Measure, Enabled;
    match a
    case Decode(_) => DecodeOrChooseDecreases(c, s, a);
    case Choose(_, _) => DecodeOrChooseDecreases(c, s, a);
    case Handoff(_, _) => HandoffDecreases(c, s, a);
    case Persist(_) => PersistDecreases(c, s, a);
    case Panic(_) => PanicDecreases(c, s, a);
  }

  predicate AllQuiet(actions: seq<Action>) {
    forall i :: 0 <= i < |actions| ==> Quiet(actions[i])
  }

  // Without further receives no run is longer than the measure of its first state.
  lemma {:induction false} QuietRunsAreShort(c: Config, s: State, actions: seq<Action>)
    requires AllQuiet(actions) && Run(c, s, actions).Some?
    ensures |actions| + Measure(c, Run(c, s, actions).value) <= Measure(c, s)
    decreases |actions|
  {
    hide Enabled, Apply, Measure;
    if actions != [] {
      assert Quiet(actions[0]);
      assert forall i :: 0 <= i < |actions[1..]| ==> actions[1..][i] == actions[i + 1];
      StepDecreases(c, s, actions[0]);
      QuietRunsAreShort(c, Apply(c, s, actions[0]), actions[1..]);
    }
  }

  // ---- Progress ------------------------------------------------------------------------

  predicate Staffed(c: Config) {
    forall o :: o in c.outputs ==> c.outputs[o].workers > 0
  }

  // Output o has not persisted message m exactly once.
  predicate Owed(c: Config, s: State, m: nat, o: string) {
    IsSending(s, m) && o in c.outputs && Count(s.log, m, o) != 1
  }

  // Every packet is dealt with, and every output has persisted every message once.
  ghost predicate Delivered(c: Config, s: State) {
    && (forall m: nat :: !IsReceived(s, m))
    && (forall m: nat, o :: !Owed(c, s, m, o))
  }

  // Some packet that fits the buffer decodes to a message.
  ghost predicate SomeMessage(c: Config) {
    exists p: Packet :: Sendable(p, c.room) && Decoded(c, p.kind, p.payload).Some?
  }

  // Every output has a worker, or there never is anything to work on.
  ghost predicate Served(c: Config, s: State) {
    Staffed(c) || (!SomeMessage(c) && forall m: nat :: !IsSending(s, m))
  }

  // What every reachable state satisfies.
  ghost predicate Sound(c: Config, s: State) {
    Conserved(c, s) && Orderly(c, s) && Buffered(c, s)
  }

  lemma ReachableIsSound(c: Config, files: Files, actions: seq<Action>)
    requires Run(c, Init(c, files), actions).Some?
    ensures Sound(c, Run(c, Init(c, files), actions).value)
  {
    NothingLostOrDuplicated(c, files, actions);
    StartsBuffered(c, files);
    RunKeepsBuffered(c, Init(c, files), actions);
  }

  lemma StepKeepsSound(c: Config, s: State, a: Action)
    requires Sound(c, s) && Enabled(c, s, a)
    ensures Sound(c, Apply(c, s, a))
  {
    hide Apply, Enabled, Conserved, Orderly, Buffered;
    StepConserves(c, s, a);
    StepKeepsBuffered(c, s, a);
  }

  lemma StepKeepsServed(c: Config, s: State, a: Action)
    requires Buffered(c, s) && Served(c, s) && Enabled(c, s, a)
    ensures Served(c, Apply(c, s, a))
  {
    if !Staffed(c) {
      if a.Decode? {
        var p := SliceIsPacket(c, s, a.msg);
      }
      hide SomeMessage, Buffered;
      var t := Apply(c, s, a);
      forall m: nat ensures !IsSending(t, m) {
        assert !IsSending(s, m);
      }
    }
  }

  lemma {:induction false} RunKeepsServed(c: Config, s: State, actions: seq<Action>)
    requires Buffered(c, s) && Served(c, s) && Run(c, s, actions).Some?
    ensures Served(c, Run(c, s, actions).value)
    decreases |actions|
  {
    hide Buffered, Served, Enabled, Apply;
    if actions != [] {
      StepKeepsServed(c, s, actions[0]);
      StepKeepsBuffered(c, s, actions[0]);
      RunKeepsServed(c, Apply(c, s, actions[0]), actions[1..]);
    }
  }

  lemma HandBusy(c: Config, s: State, w: Worker)
    requires Conserved(c, s) && w in s.hands && s.hands[w].Some?
    ensures HasMessage(c, s, w)
  {
    var m := s.hands[w].value;
    assert Accounted(c, s, m, w.0) && Holds(s, m, (w.0, w.1));
  }

  // As long as the server is up and something is undelivered, some handoff, persist, decode
  // or choice can be made, or an output panics.  What a decode results in and whether a
  // worker persists or panics is not for the run to choose.
  lemma SomeStepEnabled(c: Config, s: State) returns (a: Action)
    requires Sound(c, s) && Served(c, s) && !Delivered(c, s) && !s.down
    ensures Quiet(a) && Enabled(c, s, a)
  {
    if w :| w in s.hands && s.hands[w].Some? {
      HandBusy(c, s, w);
      hide FilesAfter, InfoAfter;
      return if FilesAfter(c, w.0, s.files, InfoAfter(c, s, w)).Some? then Persist(w) else Panic(w);
    }
    if m: nat :| IsReceived(s, m) {
      BufferedSlice(c, s, m);
      return Decode(m);
    }
    hide Buffered, SomeMessage;
    var m: nat, o :| Owed(c, s, m, o);
    assert Accounted(c, s, m, o);
    assert Unsent(s, m, o);
    var g := s.goroutines[m];
    if g.at.Some? {
      var x := g.at.value;
      assert Accounted(c, s, m, x) && Unsent(s, m, x);
      assert (x, 0) in AllWorkers(c);
      return Handoff(m, (x, 0));
    } else {
      return Choose(m, o);
    }
  }

  // Whatever order the goroutines and workers run in: a run without further receives that
  // cannot go on has delivered everything, within the measure's number of steps, or an
  // output has panicked; the latter only if some output refuses some message.
  lemma EveryQuietRunDelivers(c: Config, files: Files, before: seq<Action>, actions: seq<Action>)
    requires Staffed(c) && Run(c, Init(c, files), before).Some?
    requires AllQuiet(actions) && Run(c, Run(c, Init(c, files), before).value, actions).Some?
    ensures var s := Run(c, Init(c, files), before).value;
            var t := Run(c, s, actions).value;
            && |actions| <= Measure(c, s)
            && (Delivered(c, t) || t.down || exists a :: Quiet(a) && Enabled(c, t, a))
            && (Rereadable(c.platform) && t.down ==> SomeRefused(c, files))
  {
    hide Measure, Enabled, Delivered, Sound, Rereadable, Init, SomeRefused;
    var s := Run(c, Init(c, files), before).value;
    QuietRunsAreShort(c, s, actions);
    RunAppend(c, Init(c, files), before, actions);
    ReachableIsSound(c, files, before + actions);
    var t := Run(c, s, actions).value;
    if !Delivered(c, t) && !t.down {
      var a := SomeStepEnabled(c, t);
    }
    if Rereadable(c.platform) && !SomeRefused(c, files) {
      ReachableIsSafe(c, files, before + actions);
    }
  }

  // From every sound and safe state everything received so far can be delivered.
  lemma {:induction false} Drain(c: Config, files: Files, s: State) returns (actions: seq<Action>)
    requires Rereadable(c.platform) && !SomeRefused(c, files)
    requires Sound(c, s) && Safe(c, files, s) && Served(c, s)
    ensures AllQuiet(actions) && Run(c, s, actions).Some? && Delivered(c, Run(c, s, actions).value)
    decreases Measure(c, s)
  {
    if Delivered(c, s) {
      return [];
    }
    var a := SomeStepEnabled(c, s);
    assert Buffered(c, s) && Orderly(c, s);
    hide Sound, Served, Buffered, Enabled, Apply, Measure, Delivered, Rereadable, SomeRefused, Safe, Orderly;
    StepKeepsSound(c, s, a);
    StepKeepsServed(c, s, a);
    StepKeepsSafe(c, files, s, a);
    StepDecreases(c, s, a);
    var rest := Drain(c, files, Apply(c, s, a));
    actions := [a] + rest;
    assert actions[1..] == rest;
  }

  // ---- Without workers -----------------------------------------------------------------

  lemma {:induction false} StaysUndelivered(c: Config, s: State, o: string, m: nat, actions: seq<Action>)
    requires o in c.outputs && c.outputs[o].workers == 0
    requires Conserved(c, s) && Orderly(c, s) && IsSending(s, m) && Count(s.log, m, o) == 0
    requires Run(c, s, actions).Some?
    ensures !Delivered(c, Run(c, s, actions).value)
    decreases |actions|
  {
    if actions == [] {
      assert Owed(c, s, m, o);
    } else {
      var a := actions[0];
      StepConserves(c, s, a);
      UnstaffedStep(c, s, o, m, a);
      hide Conserved, Orderly, Enabled, Apply, Delivered;
      StaysUndelivered(c, Apply(c, s, a), o, m, actions[1..]);
    }
  }

  lemma UnstaffedStep(c: Config, s: State, o: string, m: nat, a: Action)
    requires o in c.outputs && c.outputs[o].workers == 0
    requires Orderly(c, s) && IsSending(s, m) && Enabled(c, s, a)
    ensures IsSending(Apply(c, s, a), m) && Count(Apply(c, s, a).log, m, o) == Count(s.log, m, o)
  {
    hide FilesAfter, InfoAfter;
    if a.Persist? {
      assert a.worker in AllWorkers(c);
      CountAppend(s.log, Apply(c, s, a).log[|s.log|], m, o);
    }
  }

  // An output without workers never persists anything, so the first decoded message can
  // never be delivered.
  lemma UnstaffedNeverDelivers(c: Config, files: Files, o: string, p: Packet, actions: seq<Action>)
    requires o in c.outputs && c.outputs[o].workers == 0
    requires Sendable(p, c.room) && Decoded(c, p.kind, p.payload).Some?
    requires Run(c, Init(c, files), [Receive(p), Decode(0)] + actions).Some?
    ensures Run(c, Init(c, files), [Receive(p), Decode(0)]).Some?
    ensures !Delivered(c, Run(c, Init(c, files), [Receive(p), Decode(0)] + actions).value)
  {
    hide Enabled, Apply, Delivered, Conserved, Orderly;
    var first := [Receive(p), Decode(0)];
    FirstMessage(c, files, p);
    RunAppend(c, Init(c, files), first, actions);
    NothingLostOrDuplicated(c, files, first);
    StaysUndelivered(c, Run(c, Init(c, files), first).value, o, 0, actions);
  }

  // From every reachable state a run without further receives can deliver everything.
  ghost predicate CanAlwaysDeliver(c: Config, files: Files) {
    forall before ::
      Run(c, Init(c, files), before).Some? ==>
        exists actions :: AllQuiet(actions) && Delivers(c, Run(c, Init(c, files), before).value, actions)
  }

  ghost predicate Delivers(c: Config, s: State, actions: seq<Action>) {
    Run(c, s, actions).Some? && Delivered(c, Run(c, s, actions).value)
  }

  lemma ServedDelivers(c: Config, files: Files, before: seq<Action>)
    requires Rereadable(c.platform) && (!SomeMessage(c) || (Staffed(c) && !SomeRefused(c, files)))
    requires Run(c, Init(c, files), before).Some?
    ensures exists actions :: AllQuiet(actions) && Delivers(c, Run(c, Init(c, files), before).value, actions)
  {
    if SomeRefused(c, files) {
      RefusedIsMessage(c, files);
    }
    hide Enabled, Apply, Delivered, AllQuiet, Rereadable, Sound, SomeMessage, SomeRefused, Safe;
    ReachableIsSound(c, files, before);
    ReachableIsSafe(c, files, before);
    StartsBuffered(c, files);
    RunKeepsServed(c, Init(c, files), before);
    var s := Run(c, Init(c, files), before).value;
    var actions := Drain(c, files, s);
    assert Delivers(c, s, actions);
  }

  lemma RefusedIsMessage(c: Config, files: Files)
    requires SomeRefused(c, files)
    ensures SomeMessage(c)
  {
    var o, p :| RefusedPacket(c, files, o, p);
  }

  lemma UnstaffedStuck(c: Config, files: Files, o: string)
    requires o in c.outputs && c.outputs[o].workers == 0 && SomeMessage(c)
    ensures !CanAlwaysDeliver(c, files)
  {
    hide Enabled, Apply, Delivered, AllQuiet;
    var p: Packet :| Sendable(p, c.room) && Decoded(c, p.kind, p.payload).Some?;
    hide Decoded, Sendable;
    var first := [Receive(p), Decode(0)];
    FirstMessage(c, files, p);
    var s := Run(c, Init(c, files), first).value;
    forall actions ensures !Delivers(c, s, actions) {
      RunAppend(c, Init(c, files), first, actions);
      if Run(c, s, actions).Some? {
        UnstaffedNeverDelivers(c, files, o, p, actions);
      }
    }
  }

  lemma RefusedStuck(c: Config, files: Files, o: string, p: Packet)
    requires RefusedPacket(c, files, o, p)
    ensures !CanAlwaysDeliver(c, files)
  {
    RefusedEndsServer(c, files, o, p);
    var s := Run(c, Init(c, files), Fatal(o, p)).value;
    assert Owed(c, s, 0, o);
    hide Enabled, Owed, AllQuiet, Fatal;
    forall actions ensures !Delivers(c, s, actions) {
      if actions != [] {
        assert !Enabled(c, s, actions[0]);
      }
    }
  }

  // Whatever files the server finds: the pipeline never gets stuck exactly if there is no
  // such thing as a message, or every configured output has a worker and no output refuses
  // any message.
  lemma DeliversExactlyIfServed(c: Config, files: Files)
    requires Rereadable(c.platform)
    ensures CanAlwaysDeliver(c, files) <==> !SomeMessage(c) || (Staffed(c) && !SomeRefused(c, files))
  {
    hide Run, Delivers, AllQuiet, Rereadable, SomeMessage, RefusedPacket;
    if !SomeMessage(c) || (Staffed(c) && !SomeRefused(c, files)) {
      hide SomeRefused;
      forall before | Run(c, Init(c, files), before).Some?
        ensures exists actions :: AllQuiet(actions) && Delivers(c, Run(c, Init(c, files), before).value, actions)
      {
        ServedDelivers(c, files, before);
      }
    } else if !Staffed(c) {
      var o :| o in c.outputs && c.outputs[o].workers == 0;
      UnstaffedStuck(c, files, o);
    } else {
      var o, p :| RefusedPacket(c, files, o, p);
      RefusedStuck(c, files, o, p);
    }
  }
}
