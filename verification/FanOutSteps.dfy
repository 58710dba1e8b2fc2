// What the steps of server/src/ogrt-server.go do and when they can be made, spelled out:
// no goroutine or worker waits for more than the source makes it wait for.
module FanOutSteps {
  import opened Wrappers
  import opened Outputs
  import opened Framing
  import opened FanOut
  import opened FanOutBuffer

  lemma OneStep(c: Config, s: State, a: Action)
    requires Enabled(c, s, a)
    ensures Run(c, s, [a]) == Some(Apply(c, s, a))
  {
    hide Enabled, Apply;
    assert [a][1..] == [];
    assert Run(c, Apply(c, s, a), []) == Some(Apply(c, s, a));
  }

  // ---- Receiving and decoding ----------------------------------------------------------

  // At any time a packet that fits can be received, whatever goroutines and workers do.
  lemma ReceiveRuns(c: Config, s: State, p: Packet)
    requires Buffered(c, s) && !s.down
    requires -0x8000_0000 <= p.kind < 0x8000_0000 && 8 + |p.payload| < 0x8000_0000 && 8 + |p.payload| <= c.room
    ensures var r := Run(c, s, [Receive(p)]);
            && r.Some? && Buffered(c, r.value)
            && r.value.goroutines == s.goroutines + [Received(p.kind, 8, 8 + |p.payload|)]
            && |r.value.buffer| == |s.buffer|
            && r.value.buffer[8..8 + |p.payload|] == p.payload
            && r.value.buffer[8 + |p.payload|..] == s.buffer[8 + |p.payload|..]
            && r.value == s.(buffer := r.value.buffer, goroutines := r.value.goroutines, packets := s.packets + [p])
  {
    OneStep(c, s, Receive(p));
    StepKeepsBuffered(c, s, Receive(p));
    hide Buffered;
    FrameDecodes(p.kind, p.payload, s.buffer[|Frame(p.kind, p.payload)|..]);
    hide Uint32At, BigEndian;
  }

  // At any later time its goroutine can unmarshal what its slice then holds, if the packet
  // is of type 12, and goes on to offer the message to every output; otherwise it ends.
  lemma DecodeRuns(c: Config, s: State, m: nat)
    requires Buffered(c, s) && !s.down && m < |s.goroutines| && s.goroutines[m].Received?
    ensures m < |s.packets| && 8 + |s.packets[m].payload| <= |s.buffer|
    ensures var slice := s.buffer[8..8 + |s.packets[m].payload|];
            var g := if s.packets[m].kind == 12 && c.unmarshal(slice).Some?
                     then Sending(c.unmarshal(slice).value, c.unmarshal(slice).value, c.outputs.Keys, None) else Gone;
            Run(c, s, [Decode(m)]) == Some(s.(goroutines := s.goroutines[m := g]))
  {
    BufferedSlice(c, s, m);
    hide AfterAll, SliceOf;
    OneStep(c, s, Decode(m));
  }

  // In particular a process message reaches the outputs' channels, and nothing else does.
  lemma FirstDecoded(c: Config, files: Files, p: Packet)
    requires -0x8000_0000 <= p.kind < 0x8000_0000 && 8 + |p.payload| < 0x8000_0000 && 8 + |p.payload| <= c.room
    ensures var r := Run(c, Init(c, files), [Receive(p), Decode(0)]);
            && r.Some?
            && r.value.goroutines ==
               (if p.kind == 12 && c.unmarshal(p.payload).Some?
                then [Sending(c.unmarshal(p.payload).value, c.unmarshal(p.payload).value, c.outputs.Keys, None)]
                else [Gone])
            && r.value.hands == Idle(c) && r.value.log == [] && r.value.files == files && !r.value.down
  {
    var s := Init(c, files);
    StartsBuffered(c, files);
    ReceiveRuns(c, s, p);
    var t := Run(c, s, [Receive(p)]).value;
    hide Buffered;
    DecodeRuns(c, t, 0);
    hide Run;
    assert [Receive(p)] + [Decode(0)] == [Receive(p), Decode(0)];
    RunAppend(c, s, [Receive(p)], [Decode(0)]);
  }

  // ---- Sending -------------------------------------------------------------------------

  // A goroutine that is not blocked can go on to any channel it has not come to yet.
  lemma ChooseRuns(c: Config, s: State, m: nat, o: string)
    requires !s.down && m < |s.goroutines| && s.goroutines[m].Sending?
    requires s.goroutines[m].at == None && o in s.goroutines[m].pending
    ensures var g := s.goroutines[m].(pending := s.goroutines[m].pending - {o}, at := Some(o));
            Run(c, s, [Choose(m, o)]) == Some(s.(goroutines := s.goroutines[m := g]))
  {
    OneStep(c, s, Choose(m, o));
  }

  // A goroutine blocked on a channel can hand its message to any worker of that output that
  // has none, whatever all the other workers hold.
  lemma HandoffRuns(c: Config, s: State, m: nat, w: Worker)
    requires !s.down && m < |s.goroutines| && s.goroutines[m].Sending? && s.goroutines[m].at == Some(w.0)
    requires w in s.hands && s.hands[w] == None
    ensures var g := s.goroutines[m].(at := None);
            Run(c, s, [Handoff(m, w)])
            == Some(s.(goroutines := s.goroutines[m := g], hands := s.hands[w := Some(m)]))
  {
    OneStep(c, s, Handoff(m, w));
  }

  // A worker that holds a message can persist it at any time, unless it has to panic: a file
  // output does that for a file that does not decode or cannot be created.
  lemma PersistRuns(c: Config, s: State, o: string, k: nat, m: nat)
    requires !s.down && (o, k) in s.hands && s.hands[(o, k)] == Some(m) && o in c.outputs
    requires m < |s.goroutines| && s.goroutines[m].Sending?
    ensures var conf, was := c.outputs[o], s.goroutines[m].current;
            var f := c.platform.join(conf.path, was.jobId);
            var refused := conf.kind == JsonFile &&
                           ((f in s.files && c.platform.decode(s.files[f]) == None) || !c.platform.writable(f));
            var persisted, panicked := Run(c, s, [Persist((o, k))]), Run(c, s, [Panic((o, k))]);
            && panicked == (if refused then Some(s.(down := true)) else None)
            && (refused <==> persisted == None)
            && (!refused ==>
                  var t := persisted.value;
                  && |t.goroutines| == |s.goroutines| && t.goroutines[m].Sending?
                  && var info := t.goroutines[m].current;
                  && info == was.(time := info.time)
                  && (if conf.kind == JsonElasticSearch then IsInt64Of(info.time, was.time * 1000)
                      else info.time == was.time)
                  && t == s.(goroutines := s.goroutines[m := s.goroutines[m].(current := info)],
                             hands := s.hands[(o, k) := None],
                             log := s.log + [Record(o, k, m, info)],
                             files := t.files)
                  && if conf.kind == JsonFile then
                       var job := if f in s.files then c.platform.decode(s.files[f]).value else JobInfo(was.jobId, []);
                       t.files == s.files[f := c.platform.encode(JobInfo(job.jobId, job.processes + [was]))]
                     else t.files == s.files)
  {
    var w := (o, k);
    WrapIsInt64Of(s.goroutines[m].current.time * 1000);
    hide Wrap, IsInt64Of;
    if Enabled(c, s, Persist(w)) {
      OneStep(c, s, Persist(w));
    } else {
      OneStep(c, s, Panic(w));
    }
  }

  // ---- All at once ---------------------------------------------------------------------

  // The workers of different outputs do not wait for one another: if every output has a
  // worker, the first worker of every output can hold the same message.
  lemma AllHoldAtOnce(c: Config, files: Files, p: Packet) returns (actions: seq<Action>)
    requires forall o :: o in c.outputs ==> c.outputs[o].workers > 0
    requires p.kind == 12 && c.unmarshal(p.payload).Some?
    requires 8 + |p.payload| < 0x8000_0000 && 8 + |p.payload| <= c.room
    ensures var r := Run(c, Init(c, files), actions);
            r.Some? && forall o :: o in c.outputs ==> (o, 0) in r.value.hands && r.value.hands[(o, 0)] == Some(0)
  {
    FirstDecoded(c, files, p);
    var first := [Receive(p), Decode(0)];
    var s := Run(c, Init(c, files), first).value;
    assert forall o :: o in c.outputs ==> (o, 0) in AllWorkers(c);
    hide Run, Init;
    var more := HandOut(c, s);
    RunAppend(c, Init(c, files), first, more);
    actions := first + more;
  }

  lemma {:induction false} HandOut(c: Config, s: State) returns (actions: seq<Action>)
    requires !s.down && s.goroutines != [] && s.goroutines[0].Sending? && s.goroutines[0].at == None
    requires s.goroutines[0].pending <= c.outputs.Keys
    requires forall o :: o in c.outputs ==> (o, 0) in s.hands
    requires forall o :: o in c.outputs ==>
               s.hands[(o, 0)] == if o in s.goroutines[0].pending then None else Some(0)
    ensures var r := Run(c, s, actions);
            r.Some? && forall o :: o in c.outputs ==> (o, 0) in r.value.hands && r.value.hands[(o, 0)] == Some(0)
    decreases |s.goroutines[0].pending|
  {
    var pending := s.goroutines[0].pending;
    if pending == {} {
      return [];
    }
    var o :| o in pending;
    ChooseRuns(c, s, 0, o);
    var t := Run(c, s, [Choose(0, o)]).value;
    HandoffRuns(c, t, 0, (o, 0));
    var u := Run(c, t, [Handoff(0, (o, 0))]).value;
    hide Run;
    assert u.goroutines[0].pending == pending - {o};
    RunAppend(c, s, [Choose(0, o)], [Handoff(0, (o, 0))]);
    var rest := HandOut(c, u);
    RunAppend(c, s, [Choose(0, o)] + [Handoff(0, (o, 0))], rest);
    actions := [Choose(0, o)] + [Handoff(0, (o, 0))] + rest;
  }

  // ---- What the log says ---------------------------------------------------------------

  // Count counts the records of message m by output o.
  lemma {:induction false} CountMeans(log: seq<Record>, m: nat, o: string)
    ensures Count(log, m, o) == |set i | 0 <= i < |log| && log[i].msg == m && log[i].output == o|
    decreases |log|
  {
    var places := set i | 0 <= i < |log| && log[i].msg == m && log[i].output == o;
    if log != [] {
      var shorter := log[..|log| - 1];
      CountMeans(shorter, m, o);
      var before := set i | 0 <= i < |shorter| && shorter[i].msg == m && shorter[i].output == o;
      var r := log[|log| - 1];
      if r.msg == m && r.output == o {
        assert places == before + {|log| - 1};
      } else {
        assert places == before;
      }
    } else {
      assert places == {};
    }
  }
}
