// The server's outputs: json_file.go, json_elasticsearch.go and json_over_tcp.go in
// server/src/output.
module Outputs {
  import opened Wrappers

  // ---- int64 ---------------------------------------------------------------------------

  const TWO_64 := 0x1_0000_0000_0000_0000
  const TWO_63 := 0x8000_0000_0000_0000

  type int64 = x: int | -TWO_63 <= x < TWO_63

  // A decoded process message.  body stands for the members no output looks at.
  datatype ProcessInfo = ProcessInfo(jobId: string, time: int64, body: string)

  // A job file's content.
  datatype JobInfo = JobInfo(jobId: string, processes: seq<ProcessInfo>)

  // The int64 a Go computation with exact result x delivers.
  function Wrap(x: int): (r: int64)
    ensures -TWO_63 <= x < TWO_63 ==> r == x
  {
    (x + TWO_63) % TWO_64 - TWO_63
  }

  lemma WrapIsShift(x: int) returns (q: int)
    ensures Wrap(x) == x + q * TWO_64
  {
    q := -((x + TWO_63) / TWO_64);
  }

  // r is x as an int64: in range, and off by a multiple of 2 to the 64th.
  ghost predicate IsInt64Of(r: int, x: int) {
    && -0x8000_0000_0000_0000 <= r < 0x8000_0000_0000_0000
    && exists q: int :: r == x + q * 0x1_0000_0000_0000_0000
  }

  lemma WrapIsInt64Of(x: int)
    ensures IsInt64Of(Wrap(x), x)
  {
    var q := WrapIsShift(x);
  }

  lemma OnlyWrapIsInt64Of(r: int, x: int)
    requires IsInt64Of(r, x)
    ensures r == Wrap(x)
  {
    var q: int :| r == x + q * 0x1_0000_0000_0000_0000;
    ShiftedWrap(x, q);
  }

  lemma ShiftedWrap(x: int, q: int)
    ensures Wrap(x + q * TWO_64) == Wrap(x)
  {
    var p := WrapIsShift(x + q * TWO_64);
    var r := WrapIsShift(x);
    assert Wrap(x + q * TWO_64) - Wrap(x) == (p + q - r) * TWO_64;
  }

  // Wrapping before a multiplication makes no difference to the wrapped product.
  lemma WrapTimes(x: int, k: int)
    ensures Wrap(Wrap(x) * k) == Wrap(x * k)
  {
    var q := WrapIsShift(x);
    assert Wrap(x) * k == x * k + (q * k) * TWO_64;
    ShiftedWrap(x * k, q * k);
  }

  // ---- json_elasticsearch.go -----------------------------------------------------------

  function Scaled(info: ProcessInfo): ProcessInfo {
    info.(time := Wrap(info.time * 1000))
  }

  // The message all outputs share a pointer to.
  class Message {
    var info: ProcessInfo

    constructor (info: ProcessInfo)
      ensures this.info == info
    {
      this.info := info;
    }
  }

  class JsonElasticSearchOutput {
    var index: seq<ProcessInfo>

    constructor ()
      ensures index == []
    {
      index := [];
    }

    // Scales the time of the shared message in place and indexes the message as it then is.
    // A request that is not accepted is only logged; the message stays scaled.
    method PersistProcessInfo(message: Message, accepted: bool)
      modifies this, message
      ensures message.info == Scaled(old(message.info))
      ensures IsInt64Of(message.info.time, old(message.info.time) * 1000)
      ensures message.info.jobId == old(message.info.jobId) && message.info.body == old(message.info.body)
      ensures index == old(index) + if accepted then [message.info] else []
    {
      WrapIsInt64Of(message.info.time * 1000);
      message.info := message.info.(time := Wrap(message.info.time * 1000));
      if accepted {
        index := index + [message.info];
      }
    }
  }

  // ---- json_over_tcp.go ----------------------------------------------------------------

  class JsonOverTcpOutput {
    var sent: seq<ProcessInfo>

    constructor ()
      ensures sent == []
    {
      sent := [];
    }

    // Writes the message to the connection; an error is only logged.
    method PersistProcessInfo(message: Message, accepted: bool)
      modifies this
      ensures sent == old(sent) + if accepted then [message.info] else []
    {
      if accepted {
        sent := sent + [message.info];
      }
    }
  }

  // ---- json_file.go --------------------------------------------------------------------

  // encoding/json for job files, path.Join, and the paths at which os.Create gives a file that
  // can be written: not a directory, and not inside something that is no directory.
  datatype Platform = Platform(encode: JobInfo -> string, decode: string -> Option<JobInfo>,
                               join: (string, string) -> string, writable: string -> bool)

  // Decoding inverts encoding.
  ghost predicate Faithful(c: Platform) {
    forall j :: c.decode(c.encode(j)) == Some(j)
  }

  // What has been encoded can be decoded to something.
  ghost predicate Rereadable(c: Platform) {
    forall j :: c.decode(c.encode(j)).Some?
  }

  type Files = map<string, string>

  // There is a file, and it is no job file.
  predicate Corrupt(c: Platform, files: Files, filepath: string) {
    filepath in files && c.decode(files[filepath]).None?
  }

  // A message for filepath makes the output panic.
  predicate Refused(c: Platform, files: Files, filepath: string) {
    Corrupt(c, files, filepath) || !c.writable(filepath)
  }

  // The file's job as Unmarshal reads it, or a new job if there is no such file.
  function Job(c: Platform, files: Files, filepath: string, jobId: string): Option<JobInfo> {
    if filepath in files then c.decode(files[filepath]) else Some(JobInfo(jobId, []))
  }

  // The files after a message is appended to the one at filepath; None for a panic.
  function Appended(c: Platform, files: Files, filepath: string, info: ProcessInfo): (r: Option<Files>)
    ensures r.None? <==> Refused(c, files, filepath)
  {
    match Job(c, files, filepath, info.jobId)
    case None => None
    case Some(job) =>
      if !c.writable(filepath) then None
      else Some(files[filepath := c.encode(job.(processes := job.processes + [info]))])
  }

  // An append corrupts no file and mends none.
  lemma AppendKeepsCorrupt(c: Platform, files: Files, filepath: string, info: ProcessInfo, f: string)
    requires Rereadable(c) && !Refused(c, files, filepath)
    ensures Corrupt(c, Appended(c, files, filepath, info).value, f) <==> Corrupt(c, files, f)
  {
  }

  class FileSystem {
    var files: Files

    constructor (files: Files)
      ensures this.files == files
    {
      this.files := files;
    }
  }

  class JsonFileOutput {
    const path: string
    const fs: FileSystem
    var locked: bool

    constructor (path: string, fs: FileSystem)
      ensures this.path == path && this.fs == fs && !locked
    {
      this.path := path;
      this.fs := fs;
      locked := false;
    }

    // Reads the job's file, appends the message and rewrites the file.  It panics, with the
    // mutex held and nothing written, if the file does not decode or cannot be created: the
    // error of os.Create is not looked at, but then the write fails.
    method PersistProcessInfo(c: Platform, message: Message) returns (panicked: bool)
      requires !locked
      modifies this`locked, fs
      ensures var r := Appended(c, old(fs.files), c.join(path, message.info.jobId), message.info);
              panicked == r.None? && fs.files == if r.Some? then r.value else old(fs.files)
      ensures var f, before := c.join(path, message.info.jobId), old(fs.files);
              && panicked == ((f in before && c.decode(before[f]) == None) || !c.writable(f))
              && (panicked ==> fs.files == before)
              && (!panicked ==>
                    && f in fs.files && fs.files == before[f := fs.files[f]]
                    && var job := if f in before then c.decode(before[f]).value
                                  else JobInfo(message.info.jobId, []);
                       fs.files[f] == c.encode(JobInfo(job.jobId, job.processes + [message.info])))
      ensures locked == panicked
    {
      var filepath := c.join(path, message.info.jobId);
      var jobInfo := JobInfo("", []);
      locked := true;
      if filepath in fs.files {
        var job := c.decode(fs.files[filepath]);
        if job.None? {
          return true;
        }
        jobInfo := job.value;
      } else {
        jobInfo := jobInfo.(jobId := message.info.jobId);
      }
      jobInfo := jobInfo.(processes := jobInfo.processes + [message.info]);
      var json := c.encode(jobInfo);
      if !c.writable(filepath) {
        return true;
      }
      fs.files := fs.files[filepath := json];
      locked := false;
      return false;
    }
  }
}
