// The fan-out of server/src/ogrt-server.go as a step system: one goroutine per received
// packet offers its decoded message to every output's unbuffered channel in turn, and the
// workers of an output take messages from its channel and persist them.
module FanOut {
  import opened Wrappers
  import opened Bytes
  import opened Outputs
  import opened Framing

  datatype Kind = JsonOverTcp | JsonElasticSearch | JsonFile

  datatype OutputConf = OutputConf(kind: Kind, workers: nat, path: string)

  // The configuration: outputs and size of the receive buffer, with the platform and the
  // protobuf codec, which are not part of this model.
  datatype Config = Config(outputs: map<string, OutputConf>, room: nat, platform: Platform,
                           unmarshal: seq<byte> -> Option<ProcessInfo>)

  const PROCESS_INFO_MSG := 12

  // An output's name and the worker's id.
  type Worker = (string, nat)

  // A packet's goroutine: not yet decoded, with the type it captured and the range of the
  // receive buffer it sliced; ended without a message; or sending.  A sending goroutine
  // owns the memory of its message: original is what was decoded, current what the shared
  // pointer shows now.  pending are the channels its range loop has not come to, at the
  // channel it is blocked on.
  datatype Goroutine =
    | Received(kind: int, from: nat, to: nat)
    | Gone
    | Sending(original: ProcessInfo, current: ProcessInfo, pending: set<string>, at: Option<string>)

  // One completed persist: who persisted which message, and what it then looked like.
  datatype Record = Record(output: string, worker: nat, msg: nat, info: ProcessInfo)

  // packets is the history of what was received, one goroutine each; down says that an
  // output has panicked, which ends the server.
  datatype State = State(buffer: seq<byte>, packets: seq<Packet>, goroutines: seq<Goroutine>,
                         hands: map<Worker, Option<nat>>, log: seq<Record>, files: Files, down: bool)

  datatype Action =
    | Receive(packet: Packet)
    | Decode(msg: nat)
    | Choose(msg: nat, output: string)
    | Handoff(msg: nat, worker: Worker)
    | Persist(worker: Worker)
    | Panic(worker: Worker)

  // ---- Setting up ----------------------------------------------------------------------

  function AllWorkers(c: Config): set<Worker> {
    set o, k | o in c.outputs && 0 <= k < c.outputs[o].workers :: (o, k)
  }

  function Idle(c: Config): map<Worker, Option<nat>> {
    map w | w in AllWorkers(c) :: None
  }

  // The set-up loop starts Workers workers for every output, each waiting for a message.
  method SetUp(c: Config) returns (hands: map<Worker, Option<nat>>)
    ensures hands == Idle(c)
    ensures forall o, k: nat :: (o, k) in hands <==> o in c.outputs && k < c.outputs[o].workers
    ensures forall w :: w in hands ==> hands[w] == None
  {
    hands := map[];
    var names := c.outputs.Keys;
    while names != {}
      invariant names <= c.outputs.Keys
      invariant forall w :: w in hands <==> w in AllWorkers(c) && w.0 !in names
      invariant forall w :: w in hands ==> hands[w] == None
      decreases |names|
    {
      var name :| name in names;
      for i := 0 to c.outputs[name].workers
        invariant forall w :: w in hands <==>
                                || (w in AllWorkers(c) && w.0 !in names)
                                || (w.0 == name && w.1 < i)
        invariant forall w :: w in hands ==> hands[w] == None
      {
        hands := hands[(name, i) := None];
      }
      names := names - {name};
    }
  }

  function Init(c: Config, files: Files): State {
    State(seq(c.room, _ => 0), [], [], Idle(c), [], files, false)
  }

  // ---- Steps ---------------------------------------------------------------------------

  predicate IsSending(s: State, m: nat) {
    m < |s.goroutines| && s.goroutines[m].Sending?
  }

  predicate IsReceived(s: State, m: nat) {
    m < |s.goroutines| && s.goroutines[m].Received?
  }

  // The message a worker has in hand.
  predicate HasMessage(c: Config, s: State, w: Worker) {
    w in s.hands && s.hands[w].Some? && IsSending(s, s.hands[w].value) && w.0 in c.outputs
  }

  // A packet that fits the buffer is received at any time.  A goroutine decodes once; it
  // blocks on one channel after the other, in any order; a handoff needs the goroutine
  // blocked on the channel and an idle worker receiving from it; a worker with a message
  // persists it, or panics.
  predicate Enabled(c: Config, s: State, a: Action) {
    !s.down &&
    match a
    case Receive(p) => Sendable(p, |s.buffer|)
    case Decode(m) => IsReceived(s, m) && s.goroutines[m].from <= s.goroutines[m].to <= |s.buffer|
    case Choose(m, o) =>
      IsSending(s, m) && s.goroutines[m].at == None && o in s.goroutines[m].pending
    case Handoff(m, w) =>
      IsSending(s, m) && s.goroutines[m].at == Some(w.0) && w in s.hands && s.hands[w] == None
    case Persist(w) => HasMessage(c, s, w) && FilesAfter(c, w.0, s.files, InfoAfter(c, s, w)).Some?
    case Panic(w) => HasMessage(c, s, w) && FilesAfter(c, w.0, s.files, InfoAfter(c, s, w)).None?
  }

  // What a goroutine makes of its slice: only one message type is decoded at all.
  function Decoded(c: Config, kind: int, data: seq<byte>): Option<ProcessInfo> {
    if kind == PROCESS_INFO_MSG then c.unmarshal(data) else None
  }

  // What the message looks like once an output of the given kind has persisted it.
  function AfterPersist(kind: Kind, info: ProcessInfo): ProcessInfo {
    if kind == JsonElasticSearch then Scaled(info) else info
  }

  function InfoAfter(c: Config, s: State, w: Worker): ProcessInfo
    requires HasMessage(c, s, w)
  {
    AfterPersist(c.outputs[w.0].kind, s.goroutines[s.hands[w].value].current)
  }

  // The files after output o has persisted a message, None for a panic.
  function FilesAfter(c: Config, o: string, files: Files, info: ProcessInfo): Option<Files>
    requires o in c.outputs
  {
    if c.outputs[o].kind != JsonFile then Some(files)
    else Appended(c.platform, files, c.platform.join(c.outputs[o].path, info.jobId), info)
  }

  // What a worker of output o does with one message: the call of PersistProcessInfo on the
  // writer its set-up chose by the output's type.
  method WriteMessage(c: Config, o: string, message: Message, tcp: JsonOverTcpOutput,
                      search: JsonElasticSearchOutput, file: JsonFileOutput, accepted: bool)
    returns (panicked: bool)
    requires o in c.outputs && file.path == c.outputs[o].path && !file.locked
    modifies message, tcp, search, file`locked, file.fs
    ensures message.info == AfterPersist(c.outputs[o].kind, old(message.info))
    ensures message.info.jobId == old(message.info.jobId) && message.info.body == old(message.info.body)
    ensures c.outputs[o].kind != JsonElasticSearch ==> message.info.time == old(message.info.time)
    ensures c.outputs[o].kind == JsonElasticSearch ==>
              IsInt64Of(message.info.time, old(message.info.time) * 1000)
    ensures c.outputs[o].kind != JsonFile ==> !panicked && file.fs.files == old(file.fs.files)
    ensures c.outputs[o].kind == JsonFile ==>
              var f, before := c.platform.join(c.outputs[o].path, old(message.info).jobId), old(file.fs.files);
              && panicked == ((f in before && c.platform.decode(before[f]) == None) || !c.platform.writable(f))
              && (!panicked ==>
                    && f in file.fs.files && file.fs.files == before[f := file.fs.files[f]]
                    && var job := if f in before then c.platform.decode(before[f]).value
                                  else JobInfo(old(message.info).jobId, []);
                       file.fs.files[f]
                       == c.platform.encode(JobInfo(job.jobId, job.processes + [old(message.info)])))
    ensures var r := FilesAfter(c, o, old(file.fs.files), message.info);
            panicked == r.None? && file.fs.files == if r.Some? then r.value else old(file.fs.files)
    ensures tcp.sent == old(tcp.sent) +
                        if accepted && c.outputs[o].kind == JsonOverTcp then [message.info] else []
    ensures search.index == old(search.index) +
                            if accepted && c.outputs[o].kind == JsonElasticSearch then [message.info] else []
  {
    match c.outputs[o].kind
    case JsonOverTcp =>
      tcp.PersistProcessInfo(message, accepted);
      return false;
    case JsonElasticSearch =>
      search.PersistProcessInfo(message, accepted);
      return false;
    case JsonFile =>
      panicked := file.PersistProcessInfo(c.platform, message);
  }

  function Apply(c: Config, s: State, a: Action): State
    requires Enabled(c, s, a)
  {
    match a
    case Receive(p) =>
      var buffer := After(s.buffer, Frame(p.kind, p.payload));
      var g := Received(ToInt32(Uint32At(buffer, 0)), PREFIX, PREFIX + Uint32At(buffer, 4));
      s.(buffer := buffer, packets := s.packets + [p], goroutines := s.goroutines + [g])
    case Decode(m) =>
      var g := s.goroutines[m];
      var result := Decoded(c, g.kind, s.buffer[g.from..g.to]);
      s.(goroutines := s.goroutines[m :=
        if result.None? then Gone else Sending(result.value, result.value, c.outputs.Keys, None)])
    case Choose(m, o) =>
      var g := s.goroutines[m];
      s.(goroutines := s.goroutines[m := g.(pending := g.pending - {o}, at := Some(o))])
    case Handoff(m, w) =>
      s.(goroutines := s.goroutines[m := s.goroutines[m].(at := None)], hands := s.hands[w := Some(m)])
    case Persist(w) =>
      var m, info := s.hands[w].value, InfoAfter(c, s, w);
      s.(goroutines := s.goroutines[m := s.goroutines[m].(current := info)],
         hands := s.hands[w := None],
         log := s.log + [Record(w.0, w.1, m, info)],
         files := FilesAfter(c, w.0, s.files, info).value)
    case Panic(w) => s.(down := true)
  }

  function Run(c: Config, s: State, actions: seq<Action>): Option<State>
    decreases |actions|
  {
    if actions == [] then Some(s)
    else if !Enabled(c, s, actions[0]) then None
    else Run(c, Apply(c, s, actions[0]), actions[1..])
  }

  // ---- Conservation --------------------------------------------------------------------

  predicate Unsent(s: State, m: nat, o: string) {
    IsSending(s, m) && (o in s.goroutines[m].pending || s.goroutines[m].at == Some(o))
  }

  predicate Holds(s: State, m: nat, w: Worker) {
    w in s.hands && s.hands[w] == Some(m)
  }

  ghost predicate NoHolder(s: State, m: nat, o: string) {
    forall k: nat :: !Holds(s, m, (o, k))
  }

  // How often output o has persisted message m.
  function Count(log: seq<Record>, m: nat, o: string): nat {
    if log == [] then 0
    else
      var r := log[|log| - 1];
      Count(log[..|log| - 1], m, o) + if r.msg == m && r.output == o then 1 else 0
  }

  ghost predicate Waiting(s: State, m: nat, o: string) {
    Unsent(s, m, o) && NoHolder(s, m, o) && Count(s.log, m, o) == 0
  }

  ghost predicate InHand(s: State, m: nat, o: string) {
    && !Unsent(s, m, o) && Count(s.log, m, o) == 0
    && exists k: nat :: Holds(s, m, (o, k)) && forall j: nat :: Holds(s, m, (o, j)) ==> j == k
  }

  ghost predicate Persisted(s: State, m: nat, o: string) {
    !Unsent(s, m, o) && NoHolder(s, m, o) && Count(s.log, m, o) == 1
  }

  // With respect to an output of the configuration a decoded message is in exactly one of
  // three places; otherwise it is nowhere.
  ghost predicate Accounted(c: Config, s: State, m: nat, o: string) {
    if IsSending(s, m) && o in c.outputs then
      Waiting(s, m, o) || InHand(s, m, o) || Persisted(s, m, o)
    else
      !Unsent(s, m, o) && NoHolder(s, m, o) && Count(s.log, m, o) == 0
  }

  ghost predicate Conserved(c: Config, s: State) {
    forall m: nat, o :: Accounted(c, s, m, o)
  }

  // A goroutine is not blocked on a channel that it has still to come to.
  ghost predicate Orderly(c: Config, s: State) {
    && s.hands.Keys == AllWorkers(c)
    && (forall m: nat :: IsSending(s, m) && s.goroutines[m].at.Some? ==>
                           s.goroutines[m].at.value !in s.goroutines[m].pending)
  }

  // Nothing that matters to the place of message m with respect to output o differs.
  ghost predicate SamePlace(s: State, t: State, m: nat, o: string) {
    && IsSending(s, m) == IsSending(t, m)
    && Unsent(s, m, o) == Unsent(t, m, o)
    && Count(s.log, m, o) == Count(t.log, m, o)
    && forall k: nat :: Holds(s, m, (o, k)) == Holds(t, m, (o, k))
  }

  lemma SamePlaceAccounted(c: Config, s: State, t: State, m: nat, o: string)
    requires Accounted(c, s, m, o) && SamePlace(s, t, m, o)
    ensures Accounted(c, t, m, o)
  {
    if InHand(s, m, o) {
      var k: nat :| Holds(s, m, (o, k)) && forall j: nat :: Holds(s, m, (o, j)) ==> j == k;
      assert Holds(t, m, (o, k));
    }
  }

  lemma CountAppend(log: seq<Record>, r: Record, m: nat, o: string)
    ensures Count(log + [r], m, o) == Count(log, m, o) + if r.msg == m && r.output == o then 1 else 0
  {
    assert (log + [r])[..|log|] == log;
  }

  lemma StartsConserved(c: Config, files: Files)
    ensures Conserved(c, Init(c, files)) && Orderly(c, Init(c, files))
  {
  }

  lemma OtherStepAccounted(c: Config, s: State, a: Action, m: nat, o: string)
    requires Accounted(c, s, m, o) && Enabled(c, s, a) && (a.Receive? || a.Choose? || a.Panic?)
    ensures Accounted(c, Apply(c, s, a), m, o)
  {
    SamePlaceAccounted(c, s, Apply(c, s, a), m, o);
  }

  lemma DecodeAccounted(c: Config, s: State, a: Action, m: nat, o: string)
    requires Accounted(c, s, m, o) && Enabled(c, s, a) && a.Decode?
    ensures Accounted(c, Apply(c, s, a), m, o)
  {
    var t := Apply(c, s, a);
    assert forall k: nat :: Holds(s, m, (o, k)) == Holds(t, m, (o, k));
    if a.msg != m || t.goroutines[m] == Gone {
      SamePlaceAccounted(c, s, t, m, o);
    }
  }

  lemma HandoffAccounted(c: Config, s: State, a: Action, m: nat, o: string)
    requires Accounted(c, s, m, o) && Enabled(c, s, a) && a.Handoff? && Orderly(c, s)
    ensures Accounted(c, Apply(c, s, a), m, o)
  {
    var t := Apply(c, s, a);
    if a.msg == m && a.worker.0 == o {
      assert Unsent(s, m, o) && Waiting(s, m, o);
      assert Holds(t, m, (o, a.worker.1));
      assert forall j: nat :: Holds(t, m, (o, j)) ==> j == a.worker.1 by {
        assert forall j: nat :: !Holds(s, m, (o, j));
      }
      assert InHand(t, m, o);
    } else {
      SamePlaceAccounted(c, s, t, m, o);
    }
  }

  lemma PersistAccounted(c: Config, s: State, a: Action, m: nat, o: string)
    requires Accounted(c, s, m, o) && Enabled(c, s, a) && a.Persist?
    ensures Accounted(c, Apply(c, s, a), m, o)
  {
    var t := Apply(c, s, a);
    var w := a.worker;
    CountAppend(s.log, t.log[|s.log|], m, o);
    if s.hands[w].value == m && w.0 == o {
      assert Holds(s, m, (o, w.1));
      assert InHand(s, m, o);
      assert forall j: nat :: Holds(t, m, (o, j)) ==> Holds(s, m, (o, j)) && j != w.1;
      assert NoHolder(t, m, o);
      assert Persisted(t, m, o);
    } else {
      SamePlaceAccounted(c, s, t, m, o);
    }
  }

  // Every step of any goroutine or worker conserves every message.
  lemma StepConserves(c: Config, s: State, a: Action)
    requires Conserved(c, s) && Orderly(c, s) && Enabled(c, s, a)
    ensures Conserved(c, Apply(c, s, a)) && Orderly(c, Apply(c, s, a))
  {
    hide Accounted, Apply;
    forall m: nat, o ensures Accounted(c, Apply(c, s, a), m, o) {
      match a
      case Receive(_) => OtherStepAccounted(c, s, a, m, o);
      case Choose(_, _) => OtherStepAccounted(c, s, a, m, o);
      case Panic(_) => OtherStepAccounted(c, s, a, m, o);
      case Decode(_) => DecodeAccounted(c, s, a, m, o);
      case Handoff(_, _) => HandoffAccounted(c, s, a, m, o);
      case Persist(_) => PersistAccounted(c, s, a, m, o);
    }
    StepKeepsOrder(c, s, a);
  }

  lemma StepKeepsOrder(c: Config, s: State, a: Action)
    requires Orderly(c, s) && Enabled(c, s, a)
    ensures Orderly(c, Apply(c, s, a))
  {
  }
}
