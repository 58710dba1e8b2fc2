// When an output panics and ends the server of server/src/ogrt-server.go: exactly if the file
// output is ever handed a message for a file that does not decode or cannot be created.
module FanOutPanic {
  import opened Wrappers
  import opened Outputs
  import opened Framing
  import opened FanOut
  import opened FanOutBuffer

  // ---- Messages the file output refuses ------------------------------------------------

  // Persisting the message makes output o panic, if the server found the given files.
  predicate RefusedBy(c: Config, files: Files, o: string, info: ProcessInfo)
    requires o in c.outputs
  {
    && c.outputs[o].kind == JsonFile
    && Refused(c.platform, files, c.platform.join(c.outputs[o].path, info.jobId))
  }

  // Packet p fits the buffer and decodes to a message that makes output o panic.
  predicate RefusedPacket(c: Config, files: Files, o: string, p: Packet) {
    && Sendable(p, c.room) && Decoded(c, p.kind, p.payload).Some?
    && o in c.outputs && c.outputs[o].workers > 0
    && RefusedBy(c, files, o, Decoded(c, p.kind, p.payload).value)
  }

  ghost predicate SomeRefused(c: Config, files: Files) {
    exists o, p :: RefusedPacket(c, files, o, p)
  }

  // ---- Without such messages -----------------------------------------------------------

  // The server is up, no file has become corrupt or sound since it found the given files,
  // and no message on its way makes an output with a worker panic.
  ghost predicate Safe(c: Config, files: Files, s: State) {
    && !s.down
    && (forall f :: Corrupt(c.platform, s.files, f) <==> Corrupt(c.platform, files, f))
    && (forall m: nat, o :: IsSending(s, m) && o in c.outputs && c.outputs[o].workers > 0 ==>
                              !RefusedBy(c, files, o, s.goroutines[m].current))
  }

  lemma StartsSafe(c: Config, files: Files)
    ensures Safe(c, files, Init(c, files))
  {
  }

  // A slice that decodes is itself the payload of a packet that decodes.
  lemma SliceIsPacket(c: Config, s: State, m: nat) returns (p: Packet)
    requires Buffered(c, s) && Enabled(c, s, Decode(m))
    ensures Sendable(p, c.room)
    ensures Decoded(c, p.kind, p.payload) == Decoded(c, s.goroutines[m].kind, SliceNow(s, m))
  {
    BufferedSlice(c, s, m);
    p := Packet(s.goroutines[m].kind, SliceNow(s, m));
    assert Sendable(s.packets[m], c.room);
  }

  lemma NoPanic(c: Config, files: Files, s: State, w: Worker)
    requires Orderly(c, s) && Safe(c, files, s) && HasMessage(c, s, w)
    ensures FilesAfter(c, w.0, s.files, InfoAfter(c, s, w)).Some?
  {
    assert w in AllWorkers(c);
  }

  lemma PersistKeepsSafe(c: Config, files: Files, s: State, w: Worker)
    requires Rereadable(c.platform) && Safe(c, files, s) && Enabled(c, s, Persist(w))
    ensures Safe(c, files, Apply(c, s, Persist(w)))
  {
    var t := Apply(c, s, Persist(w));
    var info := InfoAfter(c, s, w);
    forall f ensures Corrupt(c.platform, t.files, f) <==> Corrupt(c.platform, s.files, f) {
      if c.outputs[w.0].kind == JsonFile {
        AppendKeepsCorrupt(c.platform, s.files, c.platform.join(c.outputs[w.0].path, info.jobId), info, f);
      }
    }
    hide Corrupt, Appended, Rereadable;
    forall m: nat, o | IsSending(t, m) && o in c.outputs && c.outputs[o].workers > 0
      ensures !RefusedBy(c, files, o, t.goroutines[m].current)
    {
      assert IsSending(s, m) && t.goroutines[m].current.jobId == s.goroutines[m].current.jobId;
    }
  }

  lemma DecodeKeepsSafe(c: Config, files: Files, s: State, m: nat)
    requires !SomeRefused(c, files) && Buffered(c, s) && Safe(c, files, s) && Enabled(c, s, Decode(m))
    ensures Safe(c, files, Apply(c, s, Decode(m)))
  {
    var p := SliceIsPacket(c, s, m);
    var t := Apply(c, s, Decode(m));
    hide RefusedBy, Corrupt, Decoded, Sendable;
    forall k: nat, o | IsSending(t, k) && o in c.outputs && c.outputs[o].workers > 0
      ensures !RefusedBy(c, files, o, t.goroutines[k].current)
    {
      assert !RefusedPacket(c, files, o, p);
      if k != m {
        assert IsSending(s, k);
      }
    }
  }

  lemma StepKeepsSafe(c: Config, files: Files, s: State, a: Action)
    requires Rereadable(c.platform) && !SomeRefused(c, files)
    requires Orderly(c, s) && Buffered(c, s) && Safe(c, files, s) && Enabled(c, s, a)
    ensures Safe(c, files, Apply(c, s, a)) && !a.Panic?
  {
    match a
    case Persist(w) => PersistKeepsSafe(c, files, s, w);
    case Panic(w) => NoPanic(c, files, s, w);
    case Decode(m) => DecodeKeepsSafe(c, files, s, m);
    case _ =>
  }

  lemma {:induction false} RunStaysSafe(c: Config, files: Files, s: State, actions: seq<Action>)
    requires Rereadable(c.platform) && !SomeRefused(c, files)
    requires Conserved(c, s) && Orderly(c, s) && Buffered(c, s) && Safe(c, files, s) && Run(c, s, actions).Some?
    ensures Safe(c, files, Run(c, s, actions).value)
    decreases |actions|
  {
    hide Enabled, Apply, Safe, Rereadable, Conserved, Orderly, Buffered, SomeRefused;
    if actions != [] {
      StepConserves(c, s, actions[0]);
      StepKeepsBuffered(c, s, actions[0]);
      StepKeepsSafe(c, files, s, actions[0]);
      RunStaysSafe(c, files, Apply(c, s, actions[0]), actions[1..]);
    }
  }

  // ---- With one ------------------------------------------------------------------------

  // The packet reaches a worker of output o before anything else happens.
  function Fatal(o: string, p: Packet): seq<Action> {
    [Receive(p), Decode(0)] + [Choose(0, o), Handoff(0, (o, 0)), Panic((o, 0))]
  }

  lemma HandedToFirstWorker(c: Config, s: State, files: Files, o: string, info: ProcessInfo)
    requires o in c.outputs && c.outputs[o].workers > 0 && RefusedBy(c, files, o, info)
    requires s.goroutines == [Sending(info, info, c.outputs.Keys, None)]
    requires s.hands == Idle(c) && s.log == [] && s.files == files && !s.down
    ensures var r := Run(c, s, [Choose(0, o), Handoff(0, (o, 0)), Panic((o, 0))]);
            r.Some? && r.value.down && IsSending(r.value, 0) && r.value.log == []
  {
    var x, y, z := Choose(0, o), Handoff(0, (o, 0)), Panic((o, 0));
    assert (o, 0) in AllWorkers(c);
    var s1 := Apply(c, s, x);
    var s2 := Apply(c, s1, y);
    assert Enabled(c, s2, z) by {
      assert HasMessage(c, s2, (o, 0)) && InfoAfter(c, s2, (o, 0)) == info;
    }
    var s3 := Apply(c, s2, z);
    hide RefusedBy, Apply, Enabled;
    assert [x, y, z][1..] == [y, z] && [y, z][1..] == [z] && [z][1..] == [];
    assert Run(c, s3, []) == Some(s3);
    assert Run(c, s2, [z]) == Some(s3);
    assert Run(c, s1, [y, z]) == Some(s3);
  }

  // Such a packet ends the server, which then does nothing any more; the message has been
  // persisted nowhere.
  lemma RefusedEndsServer(c: Config, files: Files, o: string, p: Packet)
    requires RefusedPacket(c, files, o, p)
    ensures var r := Run(c, Init(c, files), Fatal(o, p));
            && r.Some? && r.value.down && IsSending(r.value, 0) && r.value.log == []
            && forall a :: !Enabled(c, r.value, a)
  {
    FirstMessage(c, files, p);
    var s := Run(c, Init(c, files), [Receive(p), Decode(0)]).value;
    HandedToFirstWorker(c, s, files, o, Decoded(c, p.kind, p.payload).value);
    hide Run, RefusedBy, Init;
    RunAppend(c, Init(c, files), [Receive(p), Decode(0)], [Choose(0, o), Handoff(0, (o, 0)), Panic((o, 0))]);
  }

  // A message without a job is one: joined with the empty job id, the path of a file output
  // is its own directory.
  lemma EmptyJobEndsServer(c: Config, files: Files, o: string, p: Packet)
    requires o in c.outputs && c.outputs[o].kind == JsonFile && c.outputs[o].workers > 0
    requires c.platform.join(c.outputs[o].path, "") == c.outputs[o].path
    requires !c.platform.writable(c.outputs[o].path)
    requires Sendable(p, c.room) && Decoded(c, p.kind, p.payload).Some?
    requires Decoded(c, p.kind, p.payload).value.jobId == ""
    ensures var r := Run(c, Init(c, files), Fatal(o, p)); r.Some? && r.value.down
  {
    hide Run, Enabled;
    RefusedEndsServer(c, files, o, p);
  }

  ghost predicate NeverPanics(c: Config, files: Files) {
    forall actions :: Run(c, Init(c, files), actions).Some? ==> !Run(c, Init(c, files), actions).value.down
  }

  // Whatever files the server finds: no output ever panics exactly if no packet that fits
  // the buffer decodes to a message that a staffed file output refuses.
  lemma NeverPanicsIffNoneRefused(c: Config, files: Files)
    requires Rereadable(c.platform)
    ensures NeverPanics(c, files) <==> !SomeRefused(c, files)
  {
    hide Run, RefusedPacket, Rereadable;
    if SomeRefused(c, files) {
      var o, p :| RefusedPacket(c, files, o, p);
      RefusedEndsServer(c, files, o, p);
    } else {
      forall actions | Run(c, Init(c, files), actions).Some?
        ensures !Run(c, Init(c, files), actions).value.down
      {
        ReachableIsSafe(c, files, actions);
      }
    }
  }

  lemma ReachableIsSafe(c: Config, files: Files, actions: seq<Action>)
    requires Rereadable(c.platform) && !SomeRefused(c, files) && Run(c, Init(c, files), actions).Some?
    ensures Safe(c, files, Run(c, Init(c, files), actions).value)
  {
    StartsConserved(c, files);
    StartsBuffered(c, files);
    StartsSafe(c, files);
    hide Run, Init, Conserved, Orderly, Buffered;
    RunStaysSafe(c, files, Init(c, files), actions);
  }
}
