// What the outputs of server/src/ogrt-server.go record: the time every one of them sees of
// the message they share, and the job files the file output leaves behind.
module FanOutContents {
  import opened Wrappers
  import opened Outputs
  import opened FanOut

  // ---- The shared timestamp ------------------------------------------------------------

  function Power1000(k: nat): nat {
    if k == 0 then 1 else 1000 * Power1000(k - 1)
  }

  // The message after k outputs have scaled it.
  function ScaledBy(original: ProcessInfo, k: nat): ProcessInfo {
    original.(time := Wrap(original.time * Power1000(k)))
  }

  lemma ScaledOnce(original: ProcessInfo, k: nat)
    ensures Scaled(ScaledBy(original, k)) == ScaledBy(original, k + 1)
  {
    WrapTimes(original.time * Power1000(k), 1000);
    assert original.time * Power1000(k) * 1000 == original.time * Power1000(k + 1);
  }

  // The Elasticsearch outputs that have persisted message m.
  function Scalers(c: Config, log: seq<Record>, m: nat): set<string> {
    set o | o in c.outputs && c.outputs[o].kind == JsonElasticSearch && Count(log, m, o) > 0
  }

  ghost predicate Timed(c: Config, s: State) {
    forall m: nat :: IsSending(s, m) ==>
      s.goroutines[m].current == ScaledBy(s.goroutines[m].original, |Scalers(c, s.log, m)|)
  }

  // Every record shows its message as scaled by the Elasticsearch outputs up to and
  // including that record.
  ghost predicate RecordsTimed(c: Config, s: State) {
    forall i :: 0 <= i < |s.log| ==>
      && IsSending(s, s.log[i].msg)
      && s.log[i].info
         == ScaledBy(s.goroutines[s.log[i].msg].original, |Scalers(c, s.log[..i + 1], s.log[i].msg)|)
  }

  lemma ScalersAppend(c: Config, s: State, r: Record, m: nat)
    requires r.output in c.outputs && (r.msg == m ==> Count(s.log, m, r.output) == 0)
    ensures |Scalers(c, s.log + [r], m)|
            == |Scalers(c, s.log, m)| + if r.msg == m && c.outputs[r.output].kind == JsonElasticSearch then 1 else 0
  {
    hide Count;
    forall o { CountAppend(s.log, r, m, o); }
    if r.msg == m && c.outputs[r.output].kind == JsonElasticSearch {
      assert Scalers(c, s.log + [r], m) == Scalers(c, s.log, m) + {r.output};
    } else {
      assert Scalers(c, s.log + [r], m) == Scalers(c, s.log, m);
    }
  }

  lemma PersistCountsFromZero(c: Config, s: State, w: Worker)
    requires Conserved(c, s) && Enabled(c, s, Persist(w))
    ensures Count(s.log, s.hands[w].value, w.0) == 0
  {
    var m := s.hands[w].value;
    assert Accounted(c, s, m, w.0) && Holds(s, m, (w.0, w.1));
  }

  lemma StepKeepsTime(c: Config, s: State, a: Action)
    requires Conserved(c, s) && Enabled(c, s, a) && Timed(c, s)
    ensures Timed(c, Apply(c, s, a))
  {
    var t := Apply(c, s, a);
    if a.Persist? {
      var r := t.log[|s.log|];
      PersistCountsFromZero(c, s, a.worker);
      forall m: nat | IsSending(t, m)
        ensures t.goroutines[m].current == ScaledBy(t.goroutines[m].original, |Scalers(c, t.log, m)|)
      {
        assert IsSending(s, m);
        ScalersAppend(c, s, r, m);
        ScaledOnce(s.goroutines[m].original, |Scalers(c, s.log, m)|);
      }
    } else if a.Decode? {
      forall o { NotYetCounted(c, s, a.msg, o); }
      assert Scalers(c, s.log, a.msg) == {};
    }
  }

  lemma NotYetCounted(c: Config, s: State, m: nat, o: string)
    requires Conserved(c, s) && !IsSending(s, m)
    ensures Count(s.log, m, o) == 0
  {
    assert Accounted(c, s, m, o);
  }

  lemma StepKeepsRecords(c: Config, s: State, a: Action)
    requires Conserved(c, s) && Enabled(c, s, a) && Timed(c, s) && RecordsTimed(c, s)
    ensures RecordsTimed(c, Apply(c, s, a))
  {
    StepKeepsTime(c, s, a);
    var t := Apply(c, s, a);
    forall i | 0 <= i < |t.log|
      ensures && IsSending(t, t.log[i].msg)
              && t.log[i].info
                 == ScaledBy(t.goroutines[t.log[i].msg].original, |Scalers(c, t.log[..i + 1], t.log[i].msg)|)
    {
      if i < |s.log| {
        assert IsSending(s, s.log[i].msg);
        assert t.log[..i + 1] == s.log[..i + 1];
      } else {
        assert t.log[..i + 1] == t.log;
        assert IsSending(t, t.log[i].msg);
      }
    }
  }

  lemma {:induction false} RunKeepsTime(c: Config, s: State, actions: seq<Action>)
    requires Conserved(c, s) && Orderly(c, s) && Timed(c, s) && RecordsTimed(c, s)
    requires Run(c, s, actions).Some?
    ensures Timed(c, Run(c, s, actions).value) && RecordsTimed(c, Run(c, s, actions).value)
    decreases |actions|
  {
    hide Conserved, Orderly, Enabled, Apply, Timed, RecordsTimed;
    if actions != [] {
      StepConserves(c, s, actions[0]);
      StepKeepsTime(c, s, actions[0]);
      StepKeepsRecords(c, s, actions[0]);
      RunKeepsTime(c, Apply(c, s, actions[0]), actions[1..]);
    }
  }

  // At every moment of every run the shared message shows its original time times 1000 for
  // every Elasticsearch output that has persisted it, as an int64; and every record shows
  // what was in force at its own persist.
  lemma SharedTimestamp(c: Config, files: Files, actions: seq<Action>)
    requires Run(c, Init(c, files), actions).Some?
    ensures Timed(c, Run(c, Init(c, files), actions).value)
    ensures RecordsTimed(c, Run(c, Init(c, files), actions).value)
  {
    StartsConserved(c, files);
    RunKeepsTime(c, Init(c, files), actions);
  }

  // ---- The job files -------------------------------------------------------------------

  // The file a record went to, if its output is a file output.
  function FileOf(c: Config, r: Record): Option<string> {
    if r.output in c.outputs && c.outputs[r.output].kind == JsonFile
    then Some(c.platform.join(c.outputs[r.output].path, r.info.jobId))
    else None
  }

  // The messages recorded for one file, in the order of their persists.
  function Grouped(c: Config, log: seq<Record>, filepath: string): seq<ProcessInfo> {
    if log == [] then []
    else
      var r := log[|log| - 1];
      Grouped(c, log[..|log| - 1], filepath) + if FileOf(c, r) == Some(filepath) then [r.info] else []
  }

  // What the file holds after a run that began on the given files.
  function Expected(c: Config, before: Files, log: seq<Record>, filepath: string): Option<JobInfo> {
    var grouped := Grouped(c, log, filepath);
    if filepath in before then
      match c.platform.decode(before[filepath])
      case None => None
      case Some(job) => Some(job.(processes := job.processes + grouped))
    else if grouped == [] then None
    else Some(JobInfo(grouped[0].jobId, grouped))
  }

  // The file decodes to what is expected; a corrupt one has not been touched.
  ghost predicate FileGrouped(c: Config, before: Files, log: seq<Record>, files: Files, f: string) {
    && Expected(c, before, log, f) == (if f in files then c.platform.decode(files[f]) else None)
    && (f in before ==> f in files)
    && (Corrupt(c.platform, before, f) ==> files[f] == before[f] && Grouped(c, log, f) == [])
  }

  // Every file decodes to the expected job, and there are no other files.
  ghost predicate FilesGrouped(c: Config, before: Files, s: State) {
    forall f :: FileGrouped(c, before, s.log, s.files, f)
  }

  lemma GroupedAppend(c: Config, log: seq<Record>, r: Record, filepath: string)
    ensures Grouped(c, log + [r], filepath)
            == Grouped(c, log, filepath) + if FileOf(c, r) == Some(filepath) then [r.info] else []
  {
    assert (log + [r])[..|log|] == log;
  }

  lemma StartsGrouped(c: Config, files: Files, f: string)
    ensures FileGrouped(c, files, [], files, f)
  {
    if f in files && c.platform.decode(files[f]).Some? {
      var processes := c.platform.decode(files[f]).value.processes;
      assert processes + [] == processes;
    }
  }

  lemma AppendKeepsGrouped(c: Config, before: Files, log: seq<Record>, files: Files, r: Record, f: string)
    requires Faithful(c.platform)
    requires r.output in c.outputs && FileGrouped(c, before, log, files, f)
    ensures var after := FilesAfter(c, r.output, files, r.info);
            after.Some? ==> FileGrouped(c, before, log + [r], after.value, f)
  {
    GroupedAppend(c, log, r, f);
    var grouped := Grouped(c, log, f);
    hide Grouped;
    if FileOf(c, r) == Some(f) {
      if f in before && !Corrupt(c.platform, before, f) {
        var processes := c.platform.decode(before[f]).value.processes;
        assert processes + grouped + [r.info] == processes + (grouped + [r.info]);
      } else if grouped == [] {
        assert [] + [r.info] == [r.info];
      }
    } else {
      assert grouped + [] == grouped;
    }
  }

  lemma StepKeepsFiles(c: Config, before: Files, s: State, a: Action)
    requires Faithful(c.platform) && Enabled(c, s, a) && FilesGrouped(c, before, s)
    ensures FilesGrouped(c, before, Apply(c, s, a))
  {
    hide FileGrouped, FilesAfter, InfoAfter;
    if a.Persist? {
      var r := Apply(c, s, a).log[|s.log|];
      forall f {
        AppendKeepsGrouped(c, before, s.log, s.files, r, f);
      }
    }
  }

  lemma {:induction false} RunKeepsFiles(c: Config, before: Files, s: State, actions: seq<Action>)
    requires Faithful(c.platform) && FilesGrouped(c, before, s) && Run(c, s, actions).Some?
    ensures FilesGrouped(c, before, Run(c, s, actions).value)
    decreases |actions|
  {
    hide Enabled, Apply, FilesGrouped, Faithful;
    if actions != [] {
      StepKeepsFiles(c, before, s, actions[0]);
      RunKeepsFiles(c, before, Apply(c, s, actions[0]), actions[1..]);
    }
  }

  // At every moment of every run, whatever files the server found and even if an output has
  // panicked, each job file holds what it held before and then exactly the messages
  // persisted for its path, in the order of their persists and as they then were, however
  // messages of different jobs interleave.
  lemma FileStoreIsGroupedLog(c: Config, files: Files, actions: seq<Action>)
    requires Faithful(c.platform) && Run(c, Init(c, files), actions).Some?
    ensures FilesGrouped(c, files, Run(c, Init(c, files), actions).value)
  {
    forall f {
      StartsGrouped(c, files, f);
    }
    RunKeepsFiles(c, files, Init(c, files), actions);
  }
}
