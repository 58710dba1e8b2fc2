// From the packets sent to server/src/ogrt-server.go to what its outputs record.
module FanOutEndToEnd {
  import opened Wrappers
  import opened Outputs
  import opened Framing
  import opened FanOut
  import opened FanOutBuffer
  import opened FanOutProgress
  import opened FanOutContents

  // ---- What goroutines have decoded ----------------------------------------------------

  // What packet m was sent to say: type 12 is ProcessInfoMsg, the only one the server looks
  // into.
  function Said(c: Config, packets: seq<Packet>, m: nat): Option<ProcessInfo>
    requires m < |packets|
  {
    if packets[m].kind == 12 then c.unmarshal(packets[m].payload) else None
  }

  predicate HasDecoded(s: State, m: nat) {
    m < |s.goroutines| && !s.goroutines[m].Received?
  }

  // The message a goroutine that has decoded got.
  function Got(s: State, m: nat): Option<ProcessInfo>
    requires HasDecoded(s, m)
  {
    if s.goroutines[m].Gone? then None else Some(s.goroutines[m].original)
  }

  // What goroutine m makes of its slice if it decodes when the given packets have been
  // received.
  function ReadFrom(c: Config, packets: seq<Packet>, m: nat): Option<ProcessInfo>
    requires AllSendable(packets, c.room) && m < |packets|
  {
    Decoded(c, packets[m].kind, SliceOf(seq(c.room, _ => 0), packets, m))
  }

  // Whatever a goroutine has got was in its slice when some number of packets, its own
  // among them, had been received.
  ghost predicate Attributed(c: Config, s: State)
    requires Buffered(c, s)
  {
    forall m: nat :: HasDecoded(s, m) ==>
      exists n :: m < n <= |s.packets| && ReadFrom(c, s.packets[..n], m) == Got(s, m)
  }

  lemma DecodeReads(c: Config, s: State, m: nat)
    requires Buffered(c, s) && Enabled(c, s, Decode(m))
    ensures HasDecoded(Apply(c, s, Decode(m)), m)
    ensures Got(Apply(c, s, Decode(m)), m) == ReadFrom(c, s.packets, m)
    ensures Apply(c, s, Decode(m)).packets == s.packets && m < |s.packets|
    ensures Agree(s.packets, m) ==> ReadFrom(c, s.packets, m) == Said(c, s.packets, m)
  {
    BufferedSlice(c, s, m);
    LateSliceIntactIff(seq(c.room, _ => 0), s.packets, m);
  }

  // Nothing but a decode changes what a goroutine has got.
  lemma GotStays(c: Config, s: State, a: Action, m: nat)
    requires Buffered(c, s) && Enabled(c, s, a) && a != Decode(m)
    requires HasDecoded(Apply(c, s, a), m)
    ensures HasDecoded(s, m) && Got(Apply(c, s, a), m) == Got(s, m)
    ensures m < |s.packets| <= |Apply(c, s, a).packets| && Apply(c, s, a).packets[..|s.packets|] == s.packets
  {
  }

  lemma StepKeepsAttributed(c: Config, s: State, a: Action)
    requires Buffered(c, s) && Attributed(c, s) && Enabled(c, s, a)
    ensures Buffered(c, Apply(c, s, a)) && Attributed(c, Apply(c, s, a))
  {
    StepKeepsBuffered(c, s, a);
    hide Apply, Enabled, ReadFrom, Got, HasDecoded;
    var t := Apply(c, s, a);
    forall m: nat | HasDecoded(t, m)
      ensures exists n :: m < n <= |t.packets| && ReadFrom(c, t.packets[..n], m) == Got(t, m)
    {
      var n := WhenDecoded(c, s, a, m);
    }
  }

  lemma WhenDecoded(c: Config, s: State, a: Action, m: nat) returns (n: nat)
    requires Buffered(c, s) && Attributed(c, s) && Enabled(c, s, a) && Buffered(c, Apply(c, s, a))
    requires HasDecoded(Apply(c, s, a), m)
    ensures var t := Apply(c, s, a);
            m < n <= |t.packets| && ReadFrom(c, t.packets[..n], m) == Got(t, m)
  {
    var t := Apply(c, s, a);
    hide ReadFrom, Apply, Enabled, Got;
    if a == Decode(m) {
      DecodeReads(c, s, m);
      n := |t.packets|;
      assert t.packets[..n] == s.packets;
    } else {
      GotStays(c, s, a, m);
      n :| m < n <= |s.packets| && ReadFrom(c, s.packets[..n], m) == Got(s, m);
      assert t.packets[..n] == s.packets[..n];
    }
  }

  lemma {:induction false} RunKeepsAttributed(c: Config, s: State, actions: seq<Action>)
    requires Buffered(c, s) && Attributed(c, s) && Run(c, s, actions).Some?
    ensures Buffered(c, Run(c, s, actions).value) && Attributed(c, Run(c, s, actions).value)
    decreases |actions|
  {
    hide Buffered, Attributed, Enabled, Apply;
    if actions != [] {
      StepKeepsAttributed(c, s, actions[0]);
      RunKeepsAttributed(c, Apply(c, s, actions[0]), actions[1..]);
    }
  }

  // In every run every message comes from the packets: it is what its goroutine's slice
  // held, and Framing.LateSliceIntactIff says what that is.
  lemma MessagesComeFromPackets(c: Config, files: Files, actions: seq<Action>)
    requires Run(c, Init(c, files), actions).Some?
    ensures var s := Run(c, Init(c, files), actions).value;
            Buffered(c, s) && Attributed(c, s)
  {
    hide Run;
    StartsBuffered(c, files);
    RunKeepsAttributed(c, Init(c, files), actions);
  }

  // ---- Undisturbed runs ----------------------------------------------------------------

  // Whenever a goroutine decodes, the packets received since agree with its own wherever
  // they reach.
  ghost predicate Undisturbed(c: Config, s: State, actions: seq<Action>)
    decreases |actions|
  {
    actions != [] && Enabled(c, s, actions[0]) ==>
      && (actions[0].Decode? ==> actions[0].msg < |s.packets| && Agree(s.packets, actions[0].msg))
      && Undisturbed(c, Apply(c, s, actions[0]), actions[1..])
  }

  // Whenever a goroutine decodes, nothing has been received since its own packet.
  predicate Prompt(c: Config, s: State, actions: seq<Action>)
    decreases |actions|
  {
    actions != [] && Enabled(c, s, actions[0]) ==>
      && (actions[0].Decode? ==> actions[0].msg == |s.packets| - 1)
      && Prompt(c, Apply(c, s, actions[0]), actions[1..])
  }

  lemma {:induction false} PromptIsUndisturbed(c: Config, s: State, actions: seq<Action>)
    requires Prompt(c, s, actions)
    ensures Undisturbed(c, s, actions)
    decreases |actions|
  {
    hide Enabled, Apply, Agree;
    if actions != [] && Enabled(c, s, actions[0]) {
      if actions[0].Decode? {
        LatestAgrees(s.packets);
      }
      PromptIsUndisturbed(c, Apply(c, s, actions[0]), actions[1..]);
    }
  }

  // Every goroutine that has decoded has got what its packet said.
  ghost predicate Understood(c: Config, s: State) {
    forall m: nat :: HasDecoded(s, m) ==> m < |s.packets| && Got(s, m) == Said(c, s.packets, m)
  }

  lemma StepKeepsUnderstood(c: Config, s: State, a: Action)
    requires Buffered(c, s) && Understood(c, s) && Enabled(c, s, a)
    requires a.Decode? ==> a.msg < |s.packets| && Agree(s.packets, a.msg)
    ensures Understood(c, Apply(c, s, a))
  {
    hide Decoded, Agree;
    var t := Apply(c, s, a);
    forall m: nat | HasDecoded(t, m) ensures m < |t.packets| && Got(t, m) == Said(c, t.packets, m) {
      if a == Decode(m) {
        DecodeReads(c, s, m);
      } else {
        GotStays(c, s, a, m);
        assert t.packets[m] == t.packets[..|s.packets|][m];
      }
    }
  }

  lemma {:induction false} RunKeepsUnderstood(c: Config, s: State, actions: seq<Action>)
    requires Buffered(c, s) && Understood(c, s) && Run(c, s, actions).Some? && Undisturbed(c, s, actions)
    ensures Understood(c, Run(c, s, actions).value)
    decreases |actions|
  {
    hide Buffered, Understood, Enabled, Apply, Agree;
    if actions != [] {
      StepKeepsBuffered(c, s, actions[0]);
      StepKeepsUnderstood(c, s, actions[0]);
      RunKeepsUnderstood(c, Apply(c, s, actions[0]), actions[1..]);
    }
  }

  // Every record shows what its packet said, scaled by the Elasticsearch outputs so far.
  ghost predicate RecordsSaid(c: Config, s: State) {
    forall i :: 0 <= i < |s.log| ==>
      && s.log[i].msg < |s.packets| && Said(c, s.packets, s.log[i].msg).Some?
      && s.log[i].info
         == ScaledBy(Said(c, s.packets, s.log[i].msg).value, |Scalers(c, s.log[..i + 1], s.log[i].msg)|)
  }

  // Every output has persisted every process message that can be unmarshalled once, and
  // nothing else.
  ghost predicate AllPersisted(c: Config, s: State) {
    forall m, o :: 0 <= m < |s.packets| && o in c.outputs ==>
      Count(s.log, m, o) == if s.packets[m].kind == 12 && c.unmarshal(s.packets[m].payload).Some? then 1 else 0
  }

  // In an undisturbed run outputs record what was sent, and when all is delivered every
  // output has recorded all of it, once.
  lemma SentIsRecorded(c: Config, files: Files, actions: seq<Action>)
    requires Run(c, Init(c, files), actions).Some? && Undisturbed(c, Init(c, files), actions)
    ensures var s := Run(c, Init(c, files), actions).value;
            RecordsSaid(c, s) && (Delivered(c, s) ==> AllPersisted(c, s))
  {
    hide Run;
    StartsBuffered(c, files);
    RunKeepsUnderstood(c, Init(c, files), actions);
    SharedTimestamp(c, files, actions);
    ReachableIsSound(c, files, actions);
    RecordsAreSaid(c, Run(c, Init(c, files), actions).value);
  }

  lemma RecordsAreSaid(c: Config, s: State)
    requires Sound(c, s) && RecordsTimed(c, s) && Understood(c, s)
    ensures RecordsSaid(c, s) && (Delivered(c, s) ==> AllPersisted(c, s))
  {
    hide Scalers, Orderly, ScaledBy;
    forall i | 0 <= i < |s.log|
      ensures && s.log[i].msg < |s.packets| && Said(c, s.packets, s.log[i].msg).Some?
              && s.log[i].info
                 == ScaledBy(Said(c, s.packets, s.log[i].msg).value, |Scalers(c, s.log[..i + 1], s.log[i].msg)|)
    {
      assert IsSending(s, s.log[i].msg);
      assert HasDecoded(s, s.log[i].msg);
    }
    if Delivered(c, s) {
      forall m, o | 0 <= m < |s.packets| && o in c.outputs
        ensures Count(s.log, m, o) == if Said(c, s.packets, m).Some? then 1 else 0
      {
        assert !IsReceived(s, m) && !Owed(c, s, m, o);
        assert HasDecoded(s, m);
        assert Accounted(c, s, m, o);
      }
    }
  }

  // ---- The job files -------------------------------------------------------------------

  function Timeless(info: ProcessInfo): ProcessInfo {
    info.(time := 0)
  }

  function AllTimeless(infos: seq<ProcessInfo>): seq<ProcessInfo> {
    seq(|infos|, i requires 0 <= i < |infos| => Timeless(infos[i]))
  }

  // Packet m says something for file f of output o.
  predicate MeantFor(c: Config, o: string, packets: seq<Packet>, f: string, m: nat)
    requires o in c.outputs && m < |packets|
  {
    && Said(c, packets, m).Some?
    && c.platform.join(c.outputs[o].path, Said(c, packets, m).value.jobId) == f
  }

  // What the first n packets say for file f of output o, but for the times.
  function SentTo(c: Config, o: string, packets: seq<Packet>, f: string, n: nat): seq<ProcessInfo>
    requires o in c.outputs && n <= |packets|
  {
    if n == 0 then []
    else
      SentTo(c, o, packets, f, n - 1) +
      if MeantFor(c, o, packets, f, n - 1) then [Timeless(Said(c, packets, n - 1).value)] else []
  }

  // How often the log has message v for file f persisted by o, packet by packet.
  function Tally(c: Config, o: string, packets: seq<Packet>, f: string, v: ProcessInfo,
                 log: seq<Record>, n: nat): nat
    requires o in c.outputs && n <= |packets|
  {
    if n == 0 then 0
    else
      Tally(c, o, packets, f, v, log, n - 1) +
      if MeantFor(c, o, packets, f, n - 1) && Timeless(Said(c, packets, n - 1).value) == v
      then Count(log, n - 1, o) else 0
  }

  lemma {:induction false} TallyAppend(c: Config, o: string, packets: seq<Packet>, f: string, v: ProcessInfo,
                                       log: seq<Record>, r: Record, n: nat)
    requires o in c.outputs && n <= |packets|
    ensures Tally(c, o, packets, f, v, log + [r], n) == Tally(c, o, packets, f, v, log, n) +
              if r.output == o && r.msg < n && MeantFor(c, o, packets, f, r.msg)
                 && Timeless(Said(c, packets, r.msg).value) == v then 1 else 0
    decreases n
  {
    hide MeantFor, Said, Timeless, Count;
    if n > 0 {
      TallyAppend(c, o, packets, f, v, log, r, n - 1);
      CountAppend(log, r, n - 1, o);
    }
  }

  lemma {:induction false} TallyOfNothing(c: Config, o: string, packets: seq<Packet>, f: string, v: ProcessInfo, n: nat)
    requires o in c.outputs && n <= |packets|
    ensures Tally(c, o, packets, f, v, [], n) == 0
    decreases n
  {
    if n > 0 {
      TallyOfNothing(c, o, packets, f, v, n - 1);
    }
  }

  // Every record is, but for its time, what its packet said.
  predicate Truthful(c: Config, packets: seq<Packet>, log: seq<Record>) {
    forall i :: 0 <= i < |log| ==>
      && log[i].msg < |packets| && Said(c, packets, log[i].msg).Some?
      && Timeless(log[i].info) == Timeless(Said(c, packets, log[i].msg).value)
  }

  predicate OnlyFileOutput(c: Config, o: string) {
    o in c.outputs && forall x :: x in c.outputs ==> (c.outputs[x].kind == JsonFile <==> x == o)
  }

  lemma {:induction false} GroupedIsTally(c: Config, o: string, packets: seq<Packet>, log: seq<Record>, f: string,
                                          v: ProcessInfo)
    requires OnlyFileOutput(c, o) && Truthful(c, packets, log)
    ensures multiset(AllTimeless(Grouped(c, log, f)))[v] == Tally(c, o, packets, f, v, log, |packets|)
    decreases |log|
  {
    if log == [] {
      TallyOfNothing(c, o, packets, f, v, |packets|);
    } else {
      var r, shorter := log[|log| - 1], log[..|log| - 1];
      assert log == shorter + [r];
      GroupedIsTally(c, o, packets, shorter, f, v);
      TallyAppend(c, o, packets, f, v, shorter, r, |packets|);
      hide Tally, Said, Count;
      assert Timeless(r.info) == Timeless(Said(c, packets, r.msg).value);
      assert FileOf(c, r) == Some(f) <==> r.output == o && MeantFor(c, o, packets, f, r.msg);
      if FileOf(c, r) == Some(f) {
        assert AllTimeless(Grouped(c, log, f)) == AllTimeless(Grouped(c, shorter, f)) + [Timeless(r.info)];
      } else {
        assert Grouped(c, log, f) == Grouped(c, shorter, f);
      }
    }
  }

  lemma {:induction false} SentIsTally(c: Config, o: string, packets: seq<Packet>, log: seq<Record>, f: string,
                                       v: ProcessInfo, n: nat)
    requires o in c.outputs && n <= |packets|
    requires forall m :: 0 <= m < n && Said(c, packets, m).Some? ==> Count(log, m, o) == 1
    ensures multiset(SentTo(c, o, packets, f, n))[v] == Tally(c, o, packets, f, v, log, n)
    decreases n
  {
    hide Count, Said, Timeless;
    if n > 0 {
      SentIsTally(c, o, packets, log, f, v, n - 1);
    }
  }

  // With one file output: once everything received in an undisturbed run is delivered, each
  // job file holds what it held before and then, in the order of their persists, exactly
  // the messages of the packets sent for it, each as often as it was sent; only the times
  // may have been scaled meanwhile.
  lemma JobFilesHoldWhatWasSent(c: Config, files: Files, actions: seq<Action>, o: string, f: string)
    requires Faithful(c.platform) && OnlyFileOutput(c, o)
    requires Run(c, Init(c, files), actions).Some? && Undisturbed(c, Init(c, files), actions)
    requires Delivered(c, Run(c, Init(c, files), actions).value)
    ensures var s := Run(c, Init(c, files), actions).value;
            var added := Grouped(c, s.log, f);
            && Expected(c, files, s.log, f) == (if f in s.files then c.platform.decode(s.files[f]) else None)
            && multiset(AllTimeless(added)) == multiset(SentTo(c, o, s.packets, f, |s.packets|))
  {
    hide Run, Undisturbed, Delivered, Faithful, AllPersisted, RecordsSaid;
    SentIsRecorded(c, files, actions);
    FileStoreIsGroupedLog(c, files, actions);
    var s := Run(c, Init(c, files), actions).value;
    assert FileGrouped(c, files, s.log, s.files, f);
    GroupedIsSent(c, o, s, f);
  }

  lemma GroupedIsSent(c: Config, o: string, s: State, f: string)
    requires OnlyFileOutput(c, o) && RecordsSaid(c, s) && AllPersisted(c, s)
    ensures multiset(AllTimeless(Grouped(c, s.log, f))) == multiset(SentTo(c, o, s.packets, f, |s.packets|))
  {
    assert Truthful(c, s.packets, s.log);
    forall v ensures multiset(AllTimeless(Grouped(c, s.log, f)))[v]
                     == multiset(SentTo(c, o, s.packets, f, |s.packets|))[v]
    {
      GroupedIsTally(c, o, s.packets, s.log, f, v);
      SentIsTally(c, o, s.packets, s.log, f, v, |s.packets|);
    }
  }
}
