// Whole scans: a caller that sets custom_optind to 0 and calls the scanner of
// client/src/ogrt-cmdline.c until it returns -1.
module Scan {
  import opened Wrappers
  import opened Reference
  import opened Getopt

  // What a caller sees of one call that does not return -1.
  datatype Report = Report(code: int, ind: int, arg: Option<string>)

  function ReportOf(e: Event): Report {
    Report(e.code, if e.longind.Some? then e.longind.value else 0, e.arg)
  }

  // The events up to the first one whose code a caller takes for the end of the scan.
  function Reports(es: seq<Event>): seq<Report> {
    if es == [] || es[0].code == -1 then [] else [ReportOf(es[0])] + Reports(es[1..])
  }

  // No option is declared with the value that means the end of the scan.
  predicate Unmistakable(es: seq<Event>) {
    forall i :: 0 <= i < |es| ==> es[i].code != -1
  }

  lemma {:induction false} ReportsOfAll(es: seq<Event>)
    requires Unmistakable(es)
    ensures |Reports(es)| == |es|
    ensures forall i :: 0 <= i < |es| ==> Reports(es)[i] == ReportOf(es[i])
    ensures forall i :: 0 <= i < |es| ==>
              && Reports(es)[i].code == es[i].code && Reports(es)[i].arg == es[i].arg
              && Reports(es)[i].ind == if es[i].longind.Some? then es[i].longind.value else 0
  {
    if es != [] {
      assert forall i :: 0 <= i < |es[1..]| ==> es[1..][i] == es[i + 1];
      ReportsOfAll(es[1..]);
    }
  }

  lemma EndsHere(es: seq<Event>)
    requires es == [] || es[0].code == -1
    ensures Reports(es) == [] && (es != [] ==> !Unmistakable(es))
  {
  }

  lemma ReportsStep(seen: seq<Report>, e: Event, rest: seq<Event>)
    requires e.code != -1
    ensures seen + Reports([e] + rest) == seen + [ReportOf(e)] + Reports(rest)
    ensures Unmistakable([e] + rest) ==> Unmistakable(rest)
  {
    assert ([e] + rest)[1..] == rest;
    assert Unmistakable([e] + rest) ==> forall i :: 0 <= i < |rest| ==> rest[i] == ([e] + rest)[i + 1];
  }

  // The permuting scanner reports what the reference reading reports, in no more calls than
  // argv has characters plus one, and leaves argv stably partitioned.
  method ScanAll(argv: array<string>, g: Grammar, d: GetoptData) returns (seen: seq<Report>, calls: nat)
    requires argv.Length > 0 && d.optind == 0
    modifies d, argv
    ensures seen == Reports(Read(g, 0, old(argv[..])[1..]).events)
    ensures calls == |seen| + 1 <= 1 + Chars(old(argv[..])[1..])
    ensures Unmistakable(Read(g, 0, old(argv[..])[1..]).events) ==>
              Partitioned(argv[..], g, old(argv[..]), 1, d.optind)
  {
    hide Read, Getopt.Sorted, Chars, Unmistakable, Partitioned, GetoptData.Callable, GetoptData.Boundary;
    hide GetoptData.Pending, GetoptData.PendingChars, Reports;
    ghost var orig := argv[..];
    ghost var all := Read(g, 0, orig[1..]).events;
    ghost var todo, left := all, Chars(orig[1..]);
    seen, calls := [], 0;
    d.StartIsCallable(argv, g);
    while true
      invariant d.Callable(argv, g, orig, 1)
      invariant todo == d.Pending(argv, g, orig, 1).events && left == d.PendingChars(argv, g, orig, 1)
      invariant calls == |seen| && calls + left <= Chars(orig[1..])
      invariant seen + Reports(todo) == Reports(all)
      invariant Unmistakable(all) ==> Unmistakable(todo)
      decreases left
    {
      var ret, ind; ghost var ev;
      ret, ind, ev := d.GetoptInternalR(argv, g, 0, orig, 1);
      calls := calls + 1;
      if ret == -1 {
        EndsHere(todo);
        return;
      }
      assert ReportOf(ev.value) == Report(ret, ind, d.optarg);
      ReportsStep(seen, ev.value, d.Pending(argv, g, orig, 1).events);
      seen := seen + [Report(ret, ind, d.optarg)];
      todo, left := d.Pending(argv, g, orig, 1).events, d.PendingChars(argv, g, orig, 1);
    }
  }

  // No option hands back the value that means the end of the scan.
  predicate KeepsEndValue(g: Grammar) {
    g.longopts.Some? ==>
      forall i :: 0 <= i < |g.longopts.value| ==> g.longopts.value[i].flag.Some? || g.longopts.value[i].val != -1
  }

  lemma {:induction false} EndIsUnmistakable(g: Grammar, off: nat, ws: seq<string>)
    requires Place(off, ws) && KeepsEndValue(g)
    ensures Unmistakable(Read(g, off, ws).events)
    decreases |ws|, if ws == [] then 0 else |ws[0]| - off
  {
    if ws == [] {
    } else if off == 0 && IsOperand(ws[0]) {
      EndIsUnmistakable(g, 0, ws[1..]);
    } else if off == 0 && IsDelimiter(ws[0]) {
    } else {
      var t := NextToken(g, off, ws);
      EndIsUnmistakable(g, t.off, ws[t.words..]);
      assert t.event.code != -1;
    }
  }

  lemma {:induction false} SwallowingShows(r: Reading, v: Reading, tail: seq<string>)
    requires tail != [] && Swallows(r, v, tail) && Unmistakable(r.events) && Unmistakable(v.events)
    ensures Reports(r.events) != Reports(v.events)
  {
    ReportsOfAll(r.events);
    ReportsOfAll(v.events);
    var n := |r.events| - 1;
    assert Reports(r.events)[n].arg != Reports(v.events)[n].arg;
  }

  // Two readings are reported alike exactly unless a starved last option meets an operand.
  lemma RescanReports(g: Grammar, ws: seq<string>)
    requires KeepsEndValue(g)
    ensures Reports(Read(g, 0, Permuted(g, ws)).events) == Reports(Read(g, 0, ws).events)
            <==> !(Starved(g, 0, ws) && Read(g, 0, ws).operands != [])
  {
    hide Read, Starved, Delimited;
    var r := Read(g, 0, ws);
    Idempotence(g, ws);
    if Starved(g, 0, ws) && r.operands != [] {
      StarvedMeansUndelimited(g, 0, ws);
      UndelimitedOperands(g, 0, ws);
      StarvedTakesTail(g, 0, ws, r.operands);
      EndIsUnmistakable(g, 0, ws);
      EndIsUnmistakable(g, 0, Permuted(g, ws));
      SwallowingShows(r, Read(g, 0, Permuted(g, ws)), r.operands);
    }
  }

  // Scanning the permuted argv a second time moves nothing, and reports the same exactly
  // unless an option that lacked its argument at the end can now take an operand.
  method ScanTwice(argv: array<string>, g: Grammar, d: GetoptData) returns (first: seq<Report>, second: seq<Report>)
    requires argv.Length > 0 && d.optind == 0 && KeepsEndValue(g)
    modifies d, argv
    ensures first == Reports(Read(g, 0, old(argv[..])[1..]).events)
    ensures argv[..] == old(argv[..])[..1] + Permuted(g, old(argv[..])[1..])
    ensures second == first
            <==> !(Starved(g, 0, old(argv[..])[1..]) && Read(g, 0, old(argv[..])[1..]).operands != [])
  {
    hide Read, Starved, Reports;
    var calls;
    ghost var ws := argv[..][1..];
    EndIsUnmistakable(g, 0, ws);
    first, calls := ScanAll(argv, g, d);
    assert argv[..] == old(argv[..])[..1] + Permuted(g, ws);
    assert argv[..][1..] == Permuted(g, ws);
    d.optind := 0;
    EndIsUnmistakable(g, 0, Permuted(g, ws));
    second, calls := ScanAll(argv, g, d);
    Idempotence(g, ws);
    RescanReports(g, ws);
  }
}
